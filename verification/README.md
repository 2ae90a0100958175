# Inbound mail tools: authorization context and pre-send gates

This project models the authorization logic that the Inbound mail-service tools
run on every call. It covers three layers.

- **The client context** (`src/lib/client.ts`). The api key and domain headers
  are narrowed to single values, and a missing or empty key fails with
  "Missing x-inbound-api-key header".
- **The two access guards** (`src/lib/client.ts`). `filterByDomain` keeps the
  listing items of one domain, ignoring case. `validateDomainAccess` checks the
  `@` domain of a sender address against the optional restriction.
- **The pre-call gates of the tools that write**. `create_endpoint` builds an
  endpoint config per type. `send_email` and `reply_email` check the domain and
  then the content. `send_from_mailbox` and `reply_from_mailbox` check the
  mailbox context and then the content, and send as the mailbox.

Everything is pure: each handler is a function from its inputs to a
`ToolOutcome`. The outcome is one of three things. `Thrown` is an exception that
escapes the handler. `ErrorPayload` is a returned `{error}`. `Issued` is the one
request handed to the Inbound client. So "a failed guard never reaches the
client" is a postcondition: only `Issued` carries a request.

Files:

- `wrappers.dfy` holds `Option`, `Result` and `Outcome`.
- `js_text.dfy` holds the JavaScript string semantics the code relies on:
  truthiness of an optional string, ASCII `toLowerCase`, and `split`/`join`
  with their round-trip lemmas.
- `client.dfy` models `src/lib/client.ts`.
- `tool_call.dfy` holds the outcome type, the client request shapes, the
  content gate and the mailbox context.
- There is one file per tool handler.

Modelling decisions:

- **Headers are parameters.** Headers reach the code through `headers()`, which
  is ambient request state. Here they are a `RequestHeaders` value. Each header
  is absent, a single string, or an array of strings.
- **The client is its api key.** The context carries the key the Inbound client
  would be built from, and each client call is the request value it would receive.
- **`null`/`undefined` become `None`.** A JavaScript falsy test `!x` on an
  optional string is `!Truthy(x)`: `x` is absent or empty.
- **An array domain header is taken as is.** Its first element is not
  null-coalesced, so `Some("")` can occur. It is still falsy, so it leaves both
  guards unrestricted.
- **A missing key is thrown.** In `send_email`, `reply_email` and
  `create_endpoint`, `getClientContext()` runs outside any `try`, so the error
  escapes as an exception rather than an `{error}` payload. The model returns
  `Thrown`.
- **The mailbox context is an input.** `getMailboxContext` is imported by the
  mailbox tools, but it is not defined in `src/lib/client.ts`, so the mailbox
  tools take its result as an input. That result is either a caught value or
  `{mailbox, mailboxAddress}`.
- **The endpoint type is any string.** The parameter schema restricts it to
  three values. The model still keeps the `default` branch of the switch
  reachable, because the code has it.

## Model

| member | source | states |
|---|---|---|
| `Client.GetClientContext` | src/lib/client.ts:9-26 | An array key header gives its first element and a scalar is used as is. An absent key, an empty array or an empty key fails with "Missing x-inbound-api-key header". A successful context always has a non-empty key and the narrowed domain. |
| `Client.DomainNarrowing` | src/lib/client.ts:15-17 | A scalar domain header never narrows to the empty string: it gives no domain exactly when it is empty, and an absent header gives none. An array gives its first element even when it is empty. Any falsy domain makes `filterByDomain` the identity and `validateDomainAccess` pass. |
| `Client.FilterByDomain` | src/lib/client.ts:28-35 | Output is never longer than the input. With no or an empty domain the input is returned unchanged. Otherwise every kept item has a domain equal to the restriction, ignoring case. |
| `Client.FilterByDomainExact` | src/lib/client.ts:33-34 | Under a restriction the result is a subsequence of the input, so order is kept. It holds every matching item as often as the input does, and no item without a domain or with another domain. |
| `Client.FilterByDomainIdempotent` | src/lib/client.ts:32-34 | Filtering a filtered listing again by the same domain changes nothing. |
| `Client.FilterByDomainIgnoresCase` | src/lib/client.ts:33-34 | Two spellings of the restriction that differ only in case filter alike. |
| `Client.EmailDomain` | src/lib/client.ts:43 | `split("@")[1]` is undefined exactly when the address has no `@`. When present it contains no `@`. |
| `Client.EmailDomainIsSecondPiece` | src/lib/client.ts:43 | For `pre@d` and `pre@d@...`, with no `@` in `pre` or `d`, the checked domain is `d`. |
| `Client.ValidateDomainAccess` | src/lib/client.ts:37-49 | Passes iff there is no restriction, or the address's second `@` piece equals the restriction ignoring case. An address without `@` always fails an active restriction. The error names the lower-cased extracted domain (or `undefined`) and the allowed domain as given. |
| `Client.MixedCaseSenderPasses` | src/lib/client.ts:43-44 | `"a@X.com"` passes a `"x.com"` restriction. |
| `Client.SecondAtSenderChecksMiddlePiece` | src/lib/client.ts:43-47 | `"a@b@x.com"` is checked as domain `"b"`, so it fails a `"x.com"` restriction with that domain in the message. |
| `Client.OnlySecondPieceIsChecked` | src/lib/client.ts:43-44 | `"a@x.com@evil.com"` is checked as `"x.com"`, so it passes a `"x.com"` restriction although its last `@` domain is `evil.com`. |
| `Client.SenderWithoutAtFails` | src/lib/client.ts:43-47 | A sender with no `@` fails an active restriction, reported as domain `undefined`. |
| `JsText.ToLower` | src/lib/client.ts:33 | Lower-casing keeps the length, maps each character by itself, and leaves no upper-case ASCII letter. |
| `JsText.Split` | src/lib/client.ts:43 | `split` gives at least one piece and one more piece than there are separators. No piece contains the separator. |
| `JsText.JoinSplit` | src/lib/client.ts:43 | Joining the pieces of a split with the separator gives back the original string. |
| `JsText.SplitJoin` | src/lib/client.ts:43 | Splitting a join of separator-free pieces gives back those pieces. |
| `ToolCall.CaughtMessage` | src/tools/mailbox/send-from-mailbox.ts:59-65 | A caught `Error` reports its own message, and any other thrown value reports the fallback text. |
| `ToolCall.SendMessage` | src/tools/emails/send-email.ts:101-103 | The message is "Email scheduled successfully" iff `scheduled_at` is truthy, and "Email sent successfully" otherwise. |
| `SendEmailTool.SendEmail` | src/tools/emails/send-email.ts:65-103 | A missing key is thrown and never turned into a payload. A sender outside the restriction returns the domain error, even when content is also missing. Missing content returns the html/text error. A send is issued iff every gate passes, with all ten parameters unchanged, and the message tells scheduled from sent. |
| `SendEmailTool.SendStaysInsideDomain` | src/tools/emails/send-email.ts:67-95 | Under an active restriction, every send that reaches the client has a `from` with an `@`, and its second `@` piece (the text between the first and second `@`) equals the restriction, ignoring case. |
| `ReplyEmailTool.ReplyEmail` | src/tools/emails/reply-email.ts:53-88 | A missing key is thrown. The domain error comes before the content error. A reply is issued to `id` iff every gate passes, with `from`, `to`, `subject`, `html`, `text` and `reply_all` unchanged. The message is always "Reply sent successfully". |
| `ReplyEmailTool.ReplyStaysInsideDomain` | src/tools/emails/reply-email.ts:55-79 | Under an active restriction, every reply that reaches the client has a `from` with an `@`, and its second `@` piece equals the restriction, ignoring case. |
| `SendFromMailboxTool.SendFromMailbox` | src/tools/mailbox/send-from-mailbox.ts:56-103 | Nothing is thrown. A failed mailbox context returns its caught message, ahead of the content error. A send is issued iff the context resolved and content is present. It is sent from the full `mailbox` string with the other fields unchanged. The result echoes `from = mailbox`, `from_address = mailboxAddress`, `to` and `subject`, and the message tells scheduled from sent. |
| `ReplyFromMailboxTool.ReplyFromMailbox` | src/tools/mailbox/reply-from-mailbox.ts:42-84 | Nothing is thrown. A failed mailbox context returns its caught message, ahead of the content error. A reply is issued iff the context resolved and content is present. It goes to `id` from the full `mailbox` string, with `subject`, `html`, `text` and `reply_all` unchanged and no `to`. The result echoes `mailbox`, `mailboxAddress` and "Reply sent successfully". |
| `CreateEndpointTool.BuildConfig` | src/tools/endpoints/create-endpoint.ts:57-86 | `webhook` needs a non-empty `url` and builds `{url}`. `email` needs a non-empty `forwardTo` and builds `{forwardTo, preserveHeaders}`. `email_group` needs a non-empty `emails` array and builds `{emails, preserveHeaders}`. Each returns its own error otherwise. Any other type gives "Unknown endpoint type: <type>". A built config always fits its type. |
| `CreateEndpointTool.CreateEndpoint` | src/tools/endpoints/create-endpoint.ts:55-92 | A missing key is thrown before the type is looked at. A config error is returned as a payload and creates nothing. A create is issued iff the config builds, with `name`, `type` and the config `BuildConfig` builds, which fits the type. |

## Left out

- The Inbound client and its responses are not modelled. Each client call is the request value it would receive, and response fields such as `id` and `message_id` are not echoed.
- `headers()` is ambient transport state, so it is replaced by a `RequestHeaders` parameter.
- `getMailboxContext` and email-address parsing are not part of this model. They are not defined in `src/lib/client.ts`, so the mailbox context is an input.
- The read-only tools are not modelled. These are the list, get, retry, check-mailbox and mailbox-thread tools. They only forward parameters to the client and re-project its responses. No shown tool calls `filterByDomain`, so the model makes no claim that reads are isolated on the client side.
- `JSON.stringify` formatting is left out, as are the zod schemas with their bounds, the tool metadata, the prompt text and the transport configuration.
- `async`/`await` is left out: every handler is sequential, so each is a function.
- JsText.ToLower: lower-cases ASCII letters only, not the full Unicode mapping of `toLowerCase`.
- SendEmailTool.SendEmail: the catch fallback "Domain access validation failed" is kept in the model but cannot be reached. `validateDomainAccess` only ever throws an `Error`, and the same holds for `ReplyEmailTool.ReplyEmail`.
