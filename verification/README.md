# Media transfer: a verified model of the message handler

This project models the decision logic of the chat-bot plugin
`kovi-plugin-media-transfer` (`src/lib.rs`). The plugin gives a bot two
command families:

- **"media to link"** (`cmd_to_url`, by default 转链接, 看链接, 提取地址, url):
  reply with the direct link of the picture or video attached to the command
  message, or of the one in the quoted message.
- **"link to media"** (`cmd_to_media`, by default 转图片, 转视频, 预览, 看看):
  take the first `http(s)://` link from the command's arguments, or from the
  quoted message's text, and send it back as a picture or a video.

The model is pure. One incoming message is decided by
`Dispatch.Decide(cfg, text, segs, lookup)`, which takes:

- a snapshot of the configuration;
- the message's plain text;
- its segments;
- a function that stands in for the host's asynchronous `get_msg` call.

It returns the single `Outcome`: no action, a link reply, a media reply, or
one of the two apologies.

Modules:

| module | models |
|---|---|
| `Optional` | `Option` and the "first index satisfying a predicate" search behind `find`, `find_map` and the early-return loops |
| `Strings` | `char::is_whitespace`, `str::trim` (with its start and end halves), `starts_with`, `ends_with`, `contains`, and the UTF-8 byte length that `String::len` reports |
| `Command` | `utils::parse_command`: stable sort by descending byte length, longest prefix, longest command |
| `Url` | `utils::extract_url`: the leftmost, greedy match of `https?://[^\s一-龥]+` |
| `ParseInt` | `str::parse::<i32>` as applied to a quoted message id |
| `Segments` | message segments, `utils::get_reply_text` and `utils::find_media_url` |
| `Dispatch` | the configuration, its built-in default, and the body of the `on_msg` handler |
| `ScenarioFacts`, `Scenarios` | concrete messages and the outcome the model gives each of them |

Most operations are paired with an independent description of what they
should return, and lemmas connect the two:

- `Command.ParseCommand` is characterised by `IsLongestMatch`, the unique
  longest configured literal that starts the text. Two lemmas build on this:
  the configured order never matters, and a longer command always beats its
  own prefix.
- `Url.ExtractUrl` is characterised by `LeftmostGreedy`, which has exactly one
  solution.
- `Strings.Trim` is characterised by `TrimWindow`, which has exactly one
  solution. `Trim` is idempotent.
- `ParseInt.ParseI32` has no full description of its value. Its partner is
  the inverse direction: it parses back the canonical spelling of every
  32-bit integer, and a leading `+` changes nothing.
- `Segments.GetReplyText` is stated in terms of `TextOf`, the in-order
  concatenation of the segments' text. `TextOf` is a fold, not an
  independent description. Lemmas show that it distributes over `+` and is
  empty exactly when no segment contributes text.
- `Segments.QuotedSegments` is stated in terms of the first reply segment
  with a string id (`FirstReplyAt`), the parsed id and the lookup.
- `Dispatch.ReplyKind` states the video/picture rule directly, through
  occurrences and suffixes rather than through `contains` and `ends_with`.
- `Segments.FindMediaUrl` and `Dispatch.Decide` state the precedence rules:
  the message's own media before the quote, and argument links before quoted
  links. They also state the "media to link" before "link to media" order and
  the video/picture tie-break.

## Model

| member | source | states |
|---|---|---|
| `Strings.TrimStart` | src/lib.rs:88 | the result is a suffix of the input; everything dropped is whitespace; a non-empty result does not start with whitespace |
| `Strings.TrimEnd` | src/lib.rs:88 | the result is a prefix of the input; everything dropped is whitespace; a non-empty result does not end with whitespace |
| `Strings.Trim` | src/lib.rs:88 | the result is a window of the input with only whitespace outside it and no whitespace at either end |
| `Strings.TrimWindowUnique` | src/lib.rs:88 | that window property determines the trimmed string uniquely |
| `Strings.TrimIdempotent` | src/lib.rs:103 | trimming the already trimmed text again changes nothing |
| `Strings.Contains` | src/lib.rs:322 | `contains` holds exactly when the substring occurs at some position |
| `Strings.ByteLenAppend` | src/lib.rs:94 | the UTF-8 byte length of a concatenation is the sum of the byte lengths |
| `Strings.ByteLenProperPrefix` | src/lib.rs:113 | a proper prefix is strictly shorter in bytes, so the byte-length order used by the sort agrees with the prefix order |
| `Command.InsertByLen` | src/lib.rs:113 | inserting keeps a list sorted by descending byte length and adds exactly the inserted literal |
| `Command.SortByLenDesc` | src/lib.rs:112-113 | the sorted list is a permutation of the configured list, in descending byte length |
| `Command.FirstOfSortedIsLongest` | src/lib.rs:115-120 | in a list sorted longest first, the first literal that starts the text is the longest literal that starts it |
| `Command.LongestMatch` | src/lib.rs:93-101 | no literal is found exactly when none starts the text; a found literal is the longest configured literal that starts the text |
| `Command.LongestMatchUnique` | src/lib.rs:111-120 | at most one literal is the longest match |
| `Command.LongestMatchOrderIndependent` | src/lib.rs:111-120 | the matched literal depends only on which literals are configured, not on their order |
| `Command.StripPrefix` | src/lib.rs:88-108 | with no prefixes it gives the trimmed text. Otherwise it fails exactly when no prefix starts the trimmed text, and else gives the trimmed remainder after the longest prefix |
| `Command.ParseCommand` | src/lib.rs:83-123 | a missing required prefix means no match. A non-match is the all-empty triple. It matches exactly when some command starts the cleaned text, and then reports the longest such command and the trimmed rest as arguments |
| `Command.LongerCommandWins` | src/lib.rs:110-111 | when a command and a longer command that extends it both apply, the longer one is reported |
| `Command.StripPrefixOrderIndependent` | src/lib.rs:93-101 | reordering the prefixes never changes the prefix step |
| `Command.ParseCommandOrderIndependent` | src/lib.rs:91-120 | reordering the prefixes or the commands never changes the result |
| `Url.RunEnd` | src/lib.rs:128 | the `+` is greedy: every character up to the end is a link character, and the end is the text's end or a whitespace or CJK character |
| `Url.FindFrom` | src/lib.rs:129 | returns the first position from which the pattern matches, and nothing exactly when no position matches |
| `Url.ExtractUrl` | src/lib.rs:126-130 | nothing exactly when the pattern matches nowhere; otherwise the leftmost match, extended greedily |
| `Url.LeftmostGreedyUnique` | src/lib.rs:129 | the leftmost greedy match is unique, so the extracted link is determined by the text |
| `Url.SchemeLenOfSlice` | src/lib.rs:128 | the scheme seen at a match position is the scheme seen at the start of the extracted slice |
| `Url.ExtractedUrlShape` | src/lib.rs:128 | an extracted link starts with `http://` or `https://`, has at least one character after it, and holds no whitespace or CJK character after the scheme |
| `Url.MatchNeedsColon` | src/lib.rs:128 | a match starts with `h` and has `:` right after `http` or `https` |
| `Url.NoColonNoLink` | src/lib.rs:128-129 | text without a colon yields no link |
| `Url.LinkBetween` | src/lib.rs:128-129 | a link preceded by text without `h` and followed by the end, whitespace or CJK text is extracted exactly |
| `ParseInt.ParseI32` | src/lib.rs:145 | a parsed id lies in the 32-bit range. The string is non-empty and starts with a digit or a sign, everything after the first character is a digit, and a `-` sign gives a value of at most zero |
| `ParseInt.Digits` | src/lib.rs:145 | the decimal spelling of a natural number is non-empty and all digits |
| `ParseInt.DigitsValueOfDigits` | src/lib.rs:145 | reading back the decimal spelling of a natural number gives that number |
| `ParseInt.ParseShowRoundTrip` | src/lib.rs:145 | every 32-bit integer written in decimal parses back to itself |
| `ParseInt.ParsePlusSign` | src/lib.rs:145 | a leading `+` is accepted and does not change the value |
| `Segments.SegmentMedia` | src/lib.rs:179-192 | an `image` yields a picture exactly when `url` is a string. A `video` yields a video exactly when `url` is a string, or `url` is missing and `file` is a string. The link is the entry that was used |
| `Segments.FirstMedia` | src/lib.rs:179-193 | nothing exactly when no segment yields media; otherwise the media of the first segment that does |
| `Segments.ReplyId` | src/lib.rs:137-143 | the id of the first `reply` segment whose `id` is a string, and nothing exactly when there is none |
| `Segments.QuotedSegments` | src/lib.rs:137-147 | no quote when no segment is a reply with a string id. The first such segment's id is parsed as an `i32`: no quote when it does not parse, otherwise the lookup's answer for that number |
| `Segments.TextOfAppend` | src/lib.rs:149-162 | the flattened text of two segment lists in sequence is the concatenation of their flattened texts |
| `Segments.TextOfEmpty` | src/lib.rs:149-165 | the flattened text is empty exactly when no segment contributes text |
| `Segments.GetReplyText` | src/lib.rs:133-168 | nothing exactly when there is no usable quote or none of its segments contributes text; otherwise the non-empty in-order concatenation of its text segments |
| `Segments.FindMediaUrl` | src/lib.rs:172-233 | the message's own first media wins. Without own media, the result exists exactly when the quoted message has media, and it is the quote's first media |
| `Segments.OwnMediaIgnoresQuote` | src/lib.rs:178-193 | with own media the quoted message is never consulted: any lookup gives the same result |
| `Dispatch.ReplyKind` | src/lib.rs:322-327 | a command containing 视频 always sends a video, and so does a link ending in `.mp4` or `.mov`. A picture is sent exactly when 视频 occurs nowhere in the command and the link ends in neither suffix |
| `Dispatch.TargetUrl` | src/lib.rs:299-307 | a link in the arguments is used as it is. Otherwise a link exists exactly when the quote has non-empty text containing one, and it is that text's leftmost greedy match |
| `Dispatch.Decide` | src/lib.rs:256-343 | no action exactly when the plugin is disabled, the message has no text, or neither family matches. "Media to link" is tried first and answers from `find_media_url` or apologises. "Link to media" answers from the target link or apologises, and sends a video exactly when the command contains 视频 or the link ends with `.mp4` or `.mov` |
| `Dispatch.LinkCommandIgnoresMediaVocabulary` | src/lib.rs:278-292 | a "media to link" command is answered without regard to the "link to media" vocabulary |
| `Dispatch.ArgumentLinkIgnoresQuote` | src/lib.rs:299-307 | when the arguments hold a link, the quoted message is never consulted and that link is sent |
| `Dispatch.MediaCommandOutcome` | src/lib.rs:309-343 | a "link to media" command with a target link sends that link, as a video or a picture by the tie-break |
| `Scenarios.LinkStopsAtSpace` | src/lib.rs:128 | in "预览 https://pics.example/cat.jpg 谢谢" the link ends at the space |
| `Scenarios.LinkStopsAtChineseText` | src/lib.rs:128 | in "预览https://pics.example/cat.jpg谢谢" the link ends right before 谢 |
| `Scenarios.NoLinkInPlainText` | src/lib.rs:129 | "just some words" yields no link |
| `Scenarios.AttachedPictureBeatsQuote` | src/lib.rs:179-183 | a picture attached to the command message wins over a quote |
| `Scenarios.QuotedVideoFileFallback` | src/lib.rs:218-225 | a quoted video with only a `file` entry is found through the quote and labelled a video |
| `Scenarios.VideoCommandWithLink` | src/lib.rs:297-338 | under the default configuration, "转视频 https://media.example/clip.mp4" sends the link back as a video |
| `Scenarios.ImageCommandQuotingLink` | src/lib.rs:297-341 | under the default configuration, "转图片" quoting "look https://pics.example/dog.png ok" sends that link back as a picture |

## Left out

- Configuration loading and saving (`config::Config::load`, `save`, the TOML file and the data directory) are file I/O. The model takes a `Config` value. `Dispatch.DefaultConfig` copies the four values of the built-in default (src/lib.rs:24-38).
- The `RwLock` snapshot taken at the start of the handler (src/lib.rs:261-269) is modelled as the `cfg` argument. Concurrency is not modelled.
- `event.borrow_text()` belongs to the host library. Its result is the `text` argument of `Dispatch.Decide`.
- `bot.get_msg` is an asynchronous network call. It is the `lookup` parameter, which returns the quoted message's segments. It returns `None` when the call fails or its answer has no `message` array, and the two cases are not told apart, just as in the source.
- Building and sending the reply messages is not modelled: the reply to the original message, the emoji-decorated texts, the apology strings, and the `video` segment with a `file` entry. `Outcome` records which reply is sent and with which link and kind.
- The plugin lifecycle (`#[kovi::plugin]`, `PluginBuilder::on_msg`) is host-library plumbing.
- The `regex` crate is not modelled in general. `Url.ExtractUrl` is a direct scan for the one fixed pattern.
- A fetched segment whose `type` is missing or not a string (src/lib.rs:151, 209) is represented by a `Segment` whose `kind` is any string other than `text`, `image` and `video`. It contributes nothing, as in the source.
- Command.SortByLenDesc: stability is not stated. Literals of equal byte length keep their configured order in the model, but no contract says so. The matcher's result cannot depend on that order, because two different literals of the same length cannot both start the same text. `Command.LongestMatchOrderIndependent` proves this.
- ParseInt.ParseI32: the exact value is not stated for every accepted spelling. It is pinned by the round trip from the canonical spelling (`ParseShowRoundTrip`) and by the `+` sign lemma. Other accepted spellings, such as those with leading zeros, are covered only by the range and sign clauses.
- Configuration validation, such as rejecting an empty command literal, is not done by the code. An empty literal starts every string. It therefore matches every message that has text and passes the prefix step: every such message when no prefixes are configured, and only messages that start with a configured prefix otherwise (src/lib.rs:91-105). A message without text is never matched (src/lib.rs:256-259). The model follows the code.
