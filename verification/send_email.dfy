/**
 * The send_email tool (src/tools/emails/send-email.ts): resolve the context,
 * check the sender against the domain restriction, require content, and only
 * then issue one send.
 */
module SendEmailTool {
  import opened Wrappers
  import opened JsText
  import opened Client
  import opened ToolCall

  /** The tool's parameters, as the schema has already parsed them. */
  datatype SendEmailParams = SendEmailParams(
    from: string, to: Addresses, subject: string,
    html: Option<string>, text: Option<string>,
    cc: Option<Addresses>, bcc: Option<Addresses>, replyTo: Option<Addresses>,
    scheduledAt: Option<string>, timezone: Option<string>)

  /**
   * sendEmail. A missing api key escapes as an exception (the context is
   * resolved outside the `try`); a sender outside the restricted domain and
   * missing content come back as error payloads, the domain error first; a
   * send is issued exactly when every gate passes, with the parameters as given.
   */
  function SendEmail(headers: RequestHeaders, p: SendEmailParams): (r: ToolOutcome<SendRequest, string>)
    ensures r.Thrown? <==> GetClientContext(headers).Failure?
    ensures r.Thrown? ==> r.error == MissingApiKeyMessage
    ensures r.Issued? <==>
      GetClientContext(headers).Success? &&
      SenderPermitted(p.from, NarrowDomain(headers.domain)) &&
      HasContent(p.html, p.text)
    ensures GetClientContext(headers).Success? && !SenderPermitted(p.from, NarrowDomain(headers.domain)) ==>
      r == ErrorPayload(ValidateDomainAccess(p.from, NarrowDomain(headers.domain)).error)
    ensures
      (GetClientContext(headers).Success? && SenderPermitted(p.from, NarrowDomain(headers.domain)) &&
       !HasContent(p.html, p.text)) ==> r == ErrorPayload(ContentRequiredMessage)
    ensures r.Issued? ==>
      r.request.from == p.from && r.request.to == p.to && r.request.subject == p.subject &&
      r.request.html == p.html && r.request.text == p.text &&
      r.request.cc == p.cc && r.request.bcc == p.bcc && r.request.replyTo == p.replyTo &&
      r.request.scheduledAt == p.scheduledAt && r.request.timezone == p.timezone
    ensures r.Issued? ==> (r.output == EmailScheduledMessage <==> Truthy(p.scheduledAt))
    ensures r.Issued? ==> (r.output == EmailSentMessage <==> !Truthy(p.scheduledAt))
  {
    match GetClientContext(headers)
    case Failure(e) => Thrown(e)
    case Success(context) =>
      match ValidateDomainAccess(p.from, context.domain)
      case Fail(msg) => ErrorPayload(CaughtMessage(ErrorInstance(msg), DomainCheckFallback))
      case Pass =>
        if !HasContent(p.html, p.text) then ErrorPayload(ContentRequiredMessage)
        else
          Issued(
            SendRequest(p.from, p.to, p.subject, p.html, p.text, p.cc, p.bcc, p.replyTo, p.scheduledAt, p.timezone),
            SendMessage(p.scheduledAt))
  }

  /**
   * The isolation boundary: under an active domain restriction, every send
   * that reaches the client is from an address whose second `@` piece (the
   * text between the first and second `@`) equals the restriction, ignoring case.
   */
  lemma SendStaysInsideDomain(headers: RequestHeaders, p: SendEmailParams)
    requires SendEmail(headers, p).Issued?
    requires Truthy(NarrowDomain(headers.domain))
    ensures '@' in SendEmail(headers, p).request.from
    ensures ToLower(EmailDomain(SendEmail(headers, p).request.from).value) ==
      ToLower(NarrowDomain(headers.domain).value)
  {
  }
}
