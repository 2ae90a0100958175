/**
 * The create_endpoint tool (src/tools/endpoints/create-endpoint.ts): build
 * the delivery configuration that matches the endpoint type, or return the
 * error naming what is missing, before anything is created.
 */
module CreateEndpointTool {
  import opened Wrappers
  import opened JsText
  import opened Client
  import opened ToolCall

  /** The tool's parameters, as the schema has already parsed them. */
  datatype CreateEndpointParams = CreateEndpointParams(
    name: string, endpointType: string,
    url: Option<string>, forwardTo: Option<string>, emails: Option<seq<string>>,
    preserveHeaders: Option<bool>)

  /** The `config` of `client.endpoints.create`, one variant per endpoint type. */
  datatype EndpointConfig =
    | WebhookConfig(url: string)
    | EmailConfig(forwardTo: string, preserveHeaders: Option<bool>)
    | EmailGroupConfig(emails: seq<string>, preserveHeaders: Option<bool>)

  /** The body of `client.endpoints.create`. */
  datatype CreateEndpointRequest = CreateEndpointRequest(name: string, endpointType: string, config: EndpointConfig)

  const UrlRequiredMessage: string := "URL is required for webhook endpoints"
  const ForwardToRequiredMessage: string := "forwardTo is required for email endpoints"
  const EmailsRequiredMessage: string := "emails array is required for email_group endpoints"
  const EndpointCreatedMessage: string :=
    "Endpoint created successfully. You can now route email addresses to this endpoint."

  function UnknownTypeMessage(endpointType: string): string {
    "Unknown endpoint type: " + endpointType
  }

  /** A configuration fits a type when it is that type's variant and its required field is non-empty. */
  predicate ConfigFits(endpointType: string, config: EndpointConfig) {
    match config
    case WebhookConfig(url) => endpointType == "webhook" && url != ""
    case EmailConfig(forwardTo, _) => endpointType == "email" && forwardTo != ""
    case EmailGroupConfig(emails, _) => endpointType == "email_group" && |emails| > 0
  }

  /**
   * The `switch (type)`: each known type demands its own field (a non-empty
   * `url`, a non-empty `forwardTo`, a non-empty `emails` array) and builds
   * its config from the parameters as given; any other type is an error.
   */
  function BuildConfig(p: CreateEndpointParams): (r: Result<EndpointConfig, string>)
    ensures r.Success? ==> ConfigFits(p.endpointType, r.value)
    ensures p.endpointType == "webhook" ==>
      (r.Success? <==> Truthy(p.url)) &&
      (r.Success? ==> r.value == WebhookConfig(p.url.value)) &&
      (r.Failure? ==> r.error == UrlRequiredMessage)
    ensures p.endpointType == "email" ==>
      (r.Success? <==> Truthy(p.forwardTo)) &&
      (r.Success? ==> r.value == EmailConfig(p.forwardTo.value, p.preserveHeaders)) &&
      (r.Failure? ==> r.error == ForwardToRequiredMessage)
    ensures p.endpointType == "email_group" ==>
      (r.Success? <==> p.emails.Some? && |p.emails.value| > 0) &&
      (r.Success? ==> r.value == EmailGroupConfig(p.emails.value, p.preserveHeaders)) &&
      (r.Failure? ==> r.error == EmailsRequiredMessage)
    ensures p.endpointType !in {"webhook", "email", "email_group"} ==>
      r == Failure(UnknownTypeMessage(p.endpointType))
  {
    if p.endpointType == "webhook" then
      if !Truthy(p.url) then Failure(UrlRequiredMessage) else Success(WebhookConfig(p.url.value))
    else if p.endpointType == "email" then
      if !Truthy(p.forwardTo) then Failure(ForwardToRequiredMessage)
      else Success(EmailConfig(p.forwardTo.value, p.preserveHeaders))
    else if p.endpointType == "email_group" then
      if p.emails.None? || |p.emails.value| == 0 then Failure(EmailsRequiredMessage)
      else Success(EmailGroupConfig(p.emails.value, p.preserveHeaders))
    else Failure(UnknownTypeMessage(p.endpointType))
  }

  /**
   * createEndpoint. A missing api key escapes as an exception before the
   * type is looked at; a config error comes back as an error payload; only
   * a fitting config reaches `client.endpoints.create`, with `name` and
   * `type` passed through and the config the switch built.
   */
  function CreateEndpoint(headers: RequestHeaders, p: CreateEndpointParams)
    : (r: ToolOutcome<CreateEndpointRequest, string>)
    ensures r.Thrown? <==> GetClientContext(headers).Failure?
    ensures r.Thrown? ==> r.error == MissingApiKeyMessage
    ensures r.Issued? <==> GetClientContext(headers).Success? && BuildConfig(p).Success?
    ensures GetClientContext(headers).Success? && BuildConfig(p).Failure? ==>
      r == ErrorPayload(BuildConfig(p).error)
    ensures r.Issued? ==>
      r.request.name == p.name && r.request.endpointType == p.endpointType &&
      r.request.config == BuildConfig(p).value &&
      ConfigFits(p.endpointType, r.request.config) &&
      r.output == EndpointCreatedMessage
  {
    match GetClientContext(headers)
    case Failure(e) => Thrown(e)
    case Success(_) =>
      match BuildConfig(p)
      case Failure(msg) => ErrorPayload(msg)
      case Success(config) => Issued(CreateEndpointRequest(p.name, p.endpointType, config), EndpointCreatedMessage)
  }
}
