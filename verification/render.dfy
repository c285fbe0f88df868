/**
 Message display in `handle_view_message_callback`: choose the body, strip
 its markup, cut it to the display limit, and flag attachments.
 */
module Rendering {
  import opened Wrappers
  import opened PyStr
  import opened TagStrip

  /** Longest body shown; the rest is cut to stay under the chat's message limit. */
  const BodyLimit: nat := 3000

  /** The full message as the provider returns it for `GET /messages/{id}`.
      `text` is None when the field is missing or null; `html` is None when
      the field is missing (the source then falls back to `['']`). */
  datatype MessageDetail = MessageDetail(
    fromAddress: string,
    to: seq<string>,
    subject: string,
    createdAt: string,
    text: Option<string>,
    html: Option<seq<string>>,
    attachments: seq<string>)

  /** What the user is shown: the header fields, the cleaned body and whether
      the fixed "attachments found (download not supported)" notice follows. */
  datatype MessageView = MessageView(
    from: string,
    to: seq<string>,
    subject: string,
    date: string,
    body: string,
    attachmentNotice: bool)

  /** `message.get('text') or message.get('html', [''])[0]`; None is the
      IndexError raised when `text` is falsy and `html` is an empty list. */
  function SelectBody(text: Option<string>, html: Option<seq<string>>): (r: Option<string>)
    ensures Truthy(text) ==> r == Some(text.value)
    ensures !Truthy(text) ==> (r.None? <==> html.Some? && |html.value| == 0)
    ensures !Truthy(text) && r.Some? && html.Some? ==> r.value == html.value[0]
    ensures !Truthy(text) && html.None? ==> r == Some("")
    ensures r.Some? ==>
              || (text.Some? && r.value == text.value)
              || (html.Some? && r.value in html.value)
              || r.value == ""
  {
    if Truthy(text) then text
    else match html
      case None => Some("")
      case Some(parts) => if |parts| == 0 then None else Some(parts[0])
  }

  /** `clean_content[:3000]` */
  function Truncate(s: string): (r: string)
    ensures |r| == Min(|s|, BodyLimit)
    ensures r == s[..|r|]
  {
    Prefix(s, BodyLimit)
  }

  /** A 5000-character body is cut to exactly 3000 characters, its first ones. */
  lemma TruncateLongBody(s: string)
    requires |s| == 5000
    ensures |Truncate(s)| == 3000 && Truncate(s) == s[..3000]
  {
  }

  /** The display of a fetched message; None when the body cannot be selected. */
  function RenderMessage(m: MessageDetail): (r: Option<MessageView>)
    ensures r.None? <==> SelectBody(m.text, m.html).None?
    ensures r.Some? ==>
              var clean := StripTags(SelectBody(m.text, m.html).value);
              && |r.value.body| == Min(|clean|, BodyLimit)
              && r.value.body == clean[..|r.value.body|]
    ensures r.Some? ==> (r.value.attachmentNotice <==> |m.attachments| > 0)
    ensures r.Some? ==> r.value.from == m.fromAddress && r.value.to == m.to
                        && r.value.subject == m.subject && r.value.date == m.createdAt
  {
    match SelectBody(m.text, m.html)
    case None => None
    case Some(content) =>
      Some(MessageView(m.fromAddress, m.to, m.subject, m.createdAt,
                       Truncate(StripTags(content)), |m.attachments| > 0))
  }

  /** A long plain-text message without markup shows exactly its first 3000 characters. */
  lemma RenderLongPlainText(m: MessageDetail)
    requires m.text.Some? && |m.text.value| == 5000 && '<' !in m.text.value
    ensures RenderMessage(m).Some?
    ensures RenderMessage(m).value.body == m.text.value[..3000]
  {
    StripTagsNoOpen(m.text.value);
  }

  /** The shown body is never longer than the limit nor than the raw body. */
  lemma RenderedBodyBounded(m: MessageDetail)
    ensures RenderMessage(m).Some? ==>
              |RenderMessage(m).value.body| <= BodyLimit
              && |RenderMessage(m).value.body| <= |SelectBody(m.text, m.html).value|
  {
    if RenderMessage(m).Some? {
      StripTagsShorter(SelectBody(m.text, m.html).value);
    }
  }
}
