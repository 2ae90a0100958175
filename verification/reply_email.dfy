/**
 * The reply_email tool (src/tools/emails/reply-email.ts): the same gates as
 * send_email, ending in one reply to the given email or thread.
 */
module ReplyEmailTool {
  import opened Wrappers
  import opened JsText
  import opened Client
  import opened ToolCall

  /** The tool's parameters, as the schema has already parsed them. */
  datatype ReplyEmailParams = ReplyEmailParams(
    id: string, from: string, to: Option<Addresses>, subject: Option<string>,
    html: Option<string>, text: Option<string>, replyAll: Option<bool>)

  /**
   * replyEmail. A missing api key escapes as an exception; a sender outside
   * the restricted domain, then missing content, come back as error payloads;
   * otherwise exactly one reply is issued to `id` with the parameters as given.
   */
  function ReplyEmail(headers: RequestHeaders, p: ReplyEmailParams): (r: ToolOutcome<ReplyRequest, string>)
    ensures r.Thrown? <==> GetClientContext(headers).Failure?
    ensures r.Thrown? ==> r.error == MissingApiKeyMessage
    ensures r.Issued? <==>
      GetClientContext(headers).Success? &&
      SenderPermitted(p.from, NarrowDomain(headers.domain)) &&
      HasContent(p.html, p.text)
    ensures GetClientContext(headers).Success? && !SenderPermitted(p.from, NarrowDomain(headers.domain)) ==>
      r == ErrorPayload(ValidateDomainAccess(p.from, NarrowDomain(headers.domain)).error)
    ensures
      (GetClientContext(headers).Success? && SenderPermitted(p.from, NarrowDomain(headers.domain)) &&
       !HasContent(p.html, p.text)) ==> r == ErrorPayload(ContentRequiredMessage)
    ensures r.Issued? ==>
      r.request.id == p.id && r.request.from == p.from && r.request.to == p.to &&
      r.request.subject == p.subject && r.request.html == p.html && r.request.text == p.text &&
      r.request.replyAll == p.replyAll
    ensures r.Issued? ==> r.output == ReplySentMessage
  {
    match GetClientContext(headers)
    case Failure(e) => Thrown(e)
    case Success(context) =>
      match ValidateDomainAccess(p.from, context.domain)
      case Fail(msg) => ErrorPayload(CaughtMessage(ErrorInstance(msg), DomainCheckFallback))
      case Pass =>
        if !HasContent(p.html, p.text) then ErrorPayload(ContentRequiredMessage)
        else Issued(ReplyRequest(p.id, p.from, p.to, p.subject, p.html, p.text, p.replyAll), ReplySentMessage)
  }

  /**
   * Under an active domain restriction every reply that reaches the client is
   * from an address whose second `@` piece equals the restriction, ignoring case.
   */
  lemma ReplyStaysInsideDomain(headers: RequestHeaders, p: ReplyEmailParams)
    requires ReplyEmail(headers, p).Issued?
    requires Truthy(NarrowDomain(headers.domain))
    ensures '@' in ReplyEmail(headers, p).request.from
    ensures ToLower(EmailDomain(ReplyEmail(headers, p).request.from).value) ==
      ToLower(NarrowDomain(headers.domain).value)
  {
  }
}
