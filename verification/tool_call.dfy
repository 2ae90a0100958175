/**
 * What the tool handlers share: the three ways a handler can end, the
 * request shapes handed to the Inbound client, the html/text content gate
 * and the mailbox context the mailbox tools receive.
 */
module ToolCall {
  import opened Wrappers
  import opened JsText

  /**
   * How a handler ends: a rejected call (an exception that escapes), a
   * returned `{error}` payload, or exactly one request issued to the client
   * together with what the handler reports back.
   */
  datatype ToolOutcome<Req, Out> =
    | Thrown(error: string)
    | ErrorPayload(error: string)
    | Issued(request: Req, output: Out)

  /** A value caught by a `catch` clause: an `Error` instance or anything else thrown. */
  datatype Caught = ErrorInstance(message: string) | OtherValue

  /** `error instanceof Error ? error.message : fallback`. */
  function CaughtMessage(e: Caught, fallback: string): (m: string)
    ensures e.ErrorInstance? ==> m == e.message
    ensures e.OtherValue? ==> m == fallback
  {
    match e
    case ErrorInstance(msg) => msg
    case OtherValue => fallback
  }

  /** A recipient field: one address or an array of them. */
  datatype Addresses = One(address: string) | Many(addresses: seq<string>)

  /** The body of `client.emails.send`. */
  datatype SendRequest = SendRequest(
    from: string, to: Addresses, subject: string,
    html: Option<string>, text: Option<string>,
    cc: Option<Addresses>, bcc: Option<Addresses>, replyTo: Option<Addresses>,
    scheduledAt: Option<string>, timezone: Option<string>)

  /** `client.emails.reply(id, body)`. */
  datatype ReplyRequest = ReplyRequest(
    id: string, from: string, to: Option<Addresses>, subject: Option<string>,
    html: Option<string>, text: Option<string>, replyAll: Option<bool>)

  /** What a `catch` reports when the domain check throws something other than an `Error`. */
  const DomainCheckFallback: string := "Domain access validation failed"
  /** What a `catch` reports when resolving the mailbox context throws something other than an `Error`. */
  const MailboxContextFallback: string := "Failed to get mailbox context"

  const ContentRequiredMessage: string := "Either 'html' or 'text' content is required"
  const EmailSentMessage: string := "Email sent successfully"
  const EmailScheduledMessage: string := "Email scheduled successfully"
  const ReplySentMessage: string := "Reply sent successfully"

  /** `!(!html && !text)`: at least one of the two bodies is non-empty. */
  predicate HasContent(html: Option<string>, text: Option<string>) {
    Truthy(html) || Truthy(text)
  }

  /** The message a send reports: scheduled iff `scheduled_at` is truthy. */
  function SendMessage(scheduledAt: Option<string>): (m: string)
    ensures m == EmailScheduledMessage <==> Truthy(scheduledAt)
    ensures m == EmailSentMessage <==> !Truthy(scheduledAt)
  {
    if Truthy(scheduledAt) then EmailScheduledMessage else EmailSentMessage
  }

  /**
   * The resolved mailbox identity: `mailbox` is the header as given, display
   * name included, `mailboxAddress` the bare address parsed from it. The
   * client that comes with it is not modelled.
   */
  datatype MailboxContext = MailboxContext(mailbox: string, mailboxAddress: string)
}
