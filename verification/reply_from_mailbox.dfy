/**
 * The reply_from_mailbox tool (src/tools/mailbox/reply-from-mailbox.ts): a
 * reply whose sender is the resolved mailbox.
 */
module ReplyFromMailboxTool {
  import opened Wrappers
  import opened ToolCall

  /** The tool's parameters; there is neither `from` nor `to` among them. */
  datatype ReplyFromMailboxParams = ReplyFromMailboxParams(
    id: string, html: Option<string>, text: Option<string>,
    subject: Option<string>, replyAll: Option<bool>)

  /** What the tool reports besides the client's response fields. */
  datatype ReplyFromMailboxOutput = ReplyFromMailboxOutput(from: string, fromAddress: string, message: string)

  /**
   * replyFromMailbox. A failed mailbox context is returned as an error
   * payload, missing content next; otherwise one reply is issued to `id` from
   * the full mailbox string.
   */
  function ReplyFromMailbox(context: Result<MailboxContext, Caught>, p: ReplyFromMailboxParams)
    : (r: ToolOutcome<ReplyRequest, ReplyFromMailboxOutput>)
    ensures !r.Thrown?
    ensures context.Failure? ==> r == ErrorPayload(CaughtMessage(context.error, MailboxContextFallback))
    ensures context.Success? && !HasContent(p.html, p.text) ==> r == ErrorPayload(ContentRequiredMessage)
    ensures r.Issued? <==> context.Success? && HasContent(p.html, p.text)
    ensures r.Issued? ==>
      r.request.id == p.id && r.request.from == context.value.mailbox && r.request.to == None &&
      r.request.subject == p.subject && r.request.html == p.html && r.request.text == p.text &&
      r.request.replyAll == p.replyAll
    ensures r.Issued? ==>
      r.output.from == context.value.mailbox && r.output.fromAddress == context.value.mailboxAddress &&
      r.output.message == ReplySentMessage
  {
    match context
    case Failure(e) => ErrorPayload(CaughtMessage(e, MailboxContextFallback))
    case Success(ctx) =>
      if !HasContent(p.html, p.text) then ErrorPayload(ContentRequiredMessage)
      else
        Issued(
          ReplyRequest(p.id, ctx.mailbox, None, p.subject, p.html, p.text, p.replyAll),
          ReplyFromMailboxOutput(ctx.mailbox, ctx.mailboxAddress, ReplySentMessage))
  }
}
