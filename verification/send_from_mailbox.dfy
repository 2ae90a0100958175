/**
 * The send_from_mailbox tool (src/tools/mailbox/send-from-mailbox.ts): the
 * sender is the resolved mailbox, never a caller-supplied address.
 */
module SendFromMailboxTool {
  import opened Wrappers
  import opened JsText
  import opened ToolCall

  /** The tool's parameters; there is no `from` among them. */
  datatype SendFromMailboxParams = SendFromMailboxParams(
    to: Addresses, subject: string,
    html: Option<string>, text: Option<string>,
    cc: Option<Addresses>, bcc: Option<Addresses>,
    scheduledAt: Option<string>, timezone: Option<string>)

  /** What the tool reports besides the client's response fields. */
  datatype SendFromMailboxOutput = SendFromMailboxOutput(
    from: string, fromAddress: string, to: Addresses, subject: string, message: string)

  /**
   * sendFromMailbox. A failed mailbox context is caught and returned as an
   * error payload; missing content is the next payload; otherwise one send is
   * issued from the full mailbox string.
   */
  function SendFromMailbox(context: Result<MailboxContext, Caught>, p: SendFromMailboxParams)
    : (r: ToolOutcome<SendRequest, SendFromMailboxOutput>)
    ensures !r.Thrown?
    ensures context.Failure? ==> r == ErrorPayload(CaughtMessage(context.error, MailboxContextFallback))
    ensures context.Success? && !HasContent(p.html, p.text) ==> r == ErrorPayload(ContentRequiredMessage)
    ensures r.Issued? <==> context.Success? && HasContent(p.html, p.text)
    ensures r.Issued? ==>
      r.request.from == context.value.mailbox &&
      r.request.to == p.to && r.request.subject == p.subject &&
      r.request.html == p.html && r.request.text == p.text &&
      r.request.cc == p.cc && r.request.bcc == p.bcc && r.request.replyTo == None &&
      r.request.scheduledAt == p.scheduledAt && r.request.timezone == p.timezone
    ensures r.Issued? ==>
      r.output.from == context.value.mailbox && r.output.fromAddress == context.value.mailboxAddress &&
      r.output.to == p.to && r.output.subject == p.subject
    ensures r.Issued? ==> (r.output.message == EmailScheduledMessage <==> Truthy(p.scheduledAt))
    ensures r.Issued? ==> (r.output.message == EmailSentMessage <==> !Truthy(p.scheduledAt))
  {
    match context
    case Failure(e) => ErrorPayload(CaughtMessage(e, MailboxContextFallback))
    case Success(ctx) =>
      if !HasContent(p.html, p.text) then ErrorPayload(ContentRequiredMessage)
      else
        Issued(
          SendRequest(ctx.mailbox, p.to, p.subject, p.html, p.text, p.cc, p.bcc, None, p.scheduledAt, p.timezone),
          SendFromMailboxOutput(ctx.mailbox, ctx.mailboxAddress, p.to, p.subject, SendMessage(p.scheduledAt)))
  }
}
