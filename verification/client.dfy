/**
 * The per-call authorization context and the two access guards of
 * src/lib/client.ts: header narrowing with the missing-key failure
 * (getClientContext), the case-insensitive domain filter (filterByDomain)
 * and the sender-domain check (validateDomainAccess).
 */
module Client {
  import opened Wrappers
  import opened JsText

  /** A raw request header: absent, one value, or the array a repeated header arrives as. */
  datatype HeaderValue = Missing | Single(value: string) | Multiple(values: seq<string>)

  /** The two headers getClientContext reads from the request. */
  datatype RequestHeaders = RequestHeaders(apiKey: HeaderValue, domain: HeaderValue)

  /**
   * What a call works with once its context is resolved. The Inbound client
   * is represented by the api key it is constructed from.
   */
  datatype ClientContext = ClientContext(apiKey: string, domain: Option<string>)

  const MissingApiKeyMessage: string := "Missing x-inbound-api-key header"

  /** `Array.isArray(h) ? h[0] : h`: an empty array gives `undefined`. */
  function FirstValue(h: HeaderValue): Option<string> {
    match h
    case Missing => None
    case Single(v) => Some(v)
    case Multiple(vs) => if |vs| == 0 then None else Some(vs[0])
  }

  /**
   * `Array.isArray(h) ? h[0] : h || null`: the `|| null` applies to the scalar
   * branch only, so an array's first element is kept even when it is empty.
   */
  function NarrowDomain(h: HeaderValue): Option<string> {
    match h
    case Missing => None
    case Single(v) => if v == "" then None else Some(v)
    case Multiple(vs) => if |vs| == 0 then None else Some(vs[0])
  }

  /** getClientContext with the ambient headers passed in and the client construction abstracted. */
  function GetClientContext(headers: RequestHeaders): (r: Result<ClientContext, string>)
    ensures r.Success? ==> r.value.apiKey != ""
    ensures r.Failure? ==> r.error == MissingApiKeyMessage
    ensures headers.apiKey.Single? ==>
      (r.Success? <==> headers.apiKey.value != "") &&
      (r.Success? ==> r.value.apiKey == headers.apiKey.value)
    ensures headers.apiKey.Multiple? ==>
      (r.Success? <==> |headers.apiKey.values| > 0 && headers.apiKey.values[0] != "") &&
      (r.Success? ==> r.value.apiKey == headers.apiKey.values[0])
    ensures headers.apiKey.Missing? ==> r.Failure?
    ensures r.Success? ==> r.value.domain == NarrowDomain(headers.domain)
  {
    var apiKey := FirstValue(headers.apiKey);
    var domain := NarrowDomain(headers.domain);
    if !Truthy(apiKey) then Failure(MissingApiKeyMessage)
    else Success(ClientContext(apiKey.value, domain))
  }

  /**
   * How the domain header narrows: an absent or empty scalar gives no
   * restriction, an array gives its first element as is (an empty first
   * element included), and any falsy result leaves both guards unrestricted.
   */
  lemma DomainNarrowing<T>(h: HeaderValue, items: seq<Item<T>>, fromAddress: string)
    ensures h.Single? ==> NarrowDomain(h) != Some("")
    ensures h.Single? ==> (NarrowDomain(h) == None <==> h.value == "")
    ensures h.Single? && h.value != "" ==> NarrowDomain(h) == Some(h.value)
    ensures h.Multiple? && |h.values| > 0 ==> NarrowDomain(h) == Some(h.values[0])
    ensures h.Missing? || (h.Multiple? && |h.values| == 0) ==> NarrowDomain(h) == None
    ensures !Truthy(NarrowDomain(h)) ==>
      FilterByDomain(items, NarrowDomain(h)) == items &&
      ValidateDomainAccess(fromAddress, NarrowDomain(h)) == Pass
  {
  }

  // ---------------------------------------------------------------------
  // filterByDomain

  /** An item of a listing; `domain` is the optional field the filter inspects. */
  datatype Item<T> = Item(domain: Option<string>, fields: T)

  /** `item.domain?.toLowerCase() === lowerDomain`: an item without a domain never matches. */
  predicate Matches<T>(item: Item<T>, lowerDomain: string) {
    item.domain.Some? && ToLower(item.domain.value) == lowerDomain
  }

  /** `items.filter(item => Matches(item, lowerDomain))`. */
  function KeepMatching<T>(items: seq<Item<T>>, lowerDomain: string): (r: seq<Item<T>>)
    ensures |r| <= |items|
    ensures forall k :: 0 <= k < |r| ==> Matches(r[k], lowerDomain)
  {
    if items == [] then []
    else (if Matches(items[0], lowerDomain) then [items[0]] else []) + KeepMatching(items[1..], lowerDomain)
  }

  /**
   * filterByDomain: with no (or an empty) domain the listing is returned
   * unchanged; otherwise only the items whose domain equals it, ignoring case.
   */
  function FilterByDomain<T>(items: seq<Item<T>>, domain: Option<string>): (r: seq<Item<T>>)
    ensures |r| <= |items|
    ensures !Truthy(domain) ==> r == items
    ensures Truthy(domain) ==>
      forall k :: 0 <= k < |r| ==> r[k].domain.Some? && ToLower(r[k].domain.value) == ToLower(domain.value)
  {
    if !Truthy(domain) then items
    else KeepMatching(items, ToLower(domain.value))
  }

  /** `a` is `b` with some elements removed and the rest left in order. */
  predicate IsSubsequence<T(==)>(a: seq<T>, b: seq<T>)
    decreases |b|
  {
    if a == [] then true
    else if b == [] then false
    else if a[0] == b[0] then IsSubsequence(a[1..], b[1..])
    else IsSubsequence(a, b[1..])
  }

  lemma {:induction false} KeepMatchingIsSubsequence<T>(items: seq<Item<T>>, lowerDomain: string)
    ensures IsSubsequence(KeepMatching(items, lowerDomain), items)
  {
    if items != [] {
      var rest := KeepMatching(items[1..], lowerDomain);
      KeepMatchingIsSubsequence(items[1..], lowerDomain);
      if Matches(items[0], lowerDomain) {
        assert KeepMatching(items, lowerDomain) == [items[0]] + rest;
        assert ([items[0]] + rest)[1..] == rest;
      } else {
        assert KeepMatching(items, lowerDomain) == rest;
        if rest != [] {
          assert Matches(rest[0], lowerDomain);
          assert rest[0] != items[0];
        }
      }
    }
  }

  /** Every matching item is kept as often as it occurs, every other one is dropped. */
  lemma {:induction false} KeepMatchingCounts<T>(items: seq<Item<T>>, lowerDomain: string, x: Item<T>)
    ensures multiset(KeepMatching(items, lowerDomain))[x] ==
      if Matches(x, lowerDomain) then multiset(items)[x] else 0
  {
    if items != [] {
      KeepMatchingCounts(items[1..], lowerDomain, x);
      assert items == [items[0]] + items[1..];
      assert multiset(items) == multiset([items[0]]) + multiset(items[1..]);
    }
  }

  /**
   * With a domain restriction active, the result is exactly the matching
   * items: an order-preserving subsequence of the input holding each
   * matching item as many times as the input does and nothing else.
   */
  lemma FilterByDomainExact<T>(items: seq<Item<T>>, domain: Option<string>)
    requires Truthy(domain)
    ensures IsSubsequence(FilterByDomain(items, domain), items)
    ensures forall x :: (multiset(FilterByDomain(items, domain))[x] ==
      if x.domain.Some? && ToLower(x.domain.value) == ToLower(domain.value) then multiset(items)[x] else 0)
  {
    var lower := ToLower(domain.value);
    KeepMatchingIsSubsequence(items, lower);
    forall x
      ensures multiset(FilterByDomain(items, domain))[x] ==
        if x.domain.Some? && ToLower(x.domain.value) == lower then multiset(items)[x] else 0
    {
      KeepMatchingCounts(items, lower, x);
    }
  }

  lemma {:induction false} KeepMatchingIdempotent<T>(items: seq<Item<T>>, lowerDomain: string)
    ensures KeepMatching(KeepMatching(items, lowerDomain), lowerDomain) == KeepMatching(items, lowerDomain)
  {
    if items != [] {
      var rest := KeepMatching(items[1..], lowerDomain);
      KeepMatchingIdempotent(items[1..], lowerDomain);
      if Matches(items[0], lowerDomain) {
        var r := [items[0]] + rest;
        assert r[0] == items[0] && r[1..] == rest;
        assert KeepMatching(items, lowerDomain) == r;
        assert KeepMatching(r, lowerDomain) == [items[0]] + KeepMatching(rest, lowerDomain);
      } else {
        assert KeepMatching(items, lowerDomain) == rest;
      }
    }
  }

  /** Filtering an already filtered listing by the same domain changes nothing. */
  lemma FilterByDomainIdempotent<T>(items: seq<Item<T>>, domain: Option<string>)
    ensures FilterByDomain(FilterByDomain(items, domain), domain) == FilterByDomain(items, domain)
  {
    if Truthy(domain) {
      KeepMatchingIdempotent(items, ToLower(domain.value));
    }
  }

  /** The restriction is compared ignoring case: two spellings of it filter alike. */
  lemma FilterByDomainIgnoresCase<T>(items: seq<Item<T>>, d1: string, d2: string)
    requires ToLower(d1) == ToLower(d2)
    ensures FilterByDomain(items, Some(d1)) == FilterByDomain(items, Some(d2))
  {
  }

  // ---------------------------------------------------------------------
  // validateDomainAccess

  /** `fromAddress.split("@")[1]`: the text between the first and second `@`, if any. */
  function EmailDomain(fromAddress: string): (r: Option<string>)
    ensures r.None? <==> '@' !in fromAddress
    ensures r.Some? ==> '@' !in r.value
  {
    var parts := Split(fromAddress, '@');
    CountZero(fromAddress, '@');
    if |parts| > 1 then Some(parts[1]) else None
  }

  /** The checked domain of `pre@d@...` or `pre@d` is `d`, whatever follows the second `@`. */
  lemma EmailDomainIsSecondPiece(pre: string, d: string, post: string)
    requires '@' !in pre && '@' !in d
    requires post == [] || post[0] == '@'
    ensures EmailDomain(pre + ['@'] + d + post) == Some(d)
  {
    var s := pre + ['@'] + d + post;
    assert s == pre + ['@'] + (d + post);
    SplitAtFirst(pre, '@', d + post);
    if post == [] {
      assert d + post == d;
      SplitNoSeparator(d, '@');
    } else {
      assert d + post == d + ['@'] + post[1..];
      SplitAtFirst(d, '@', post[1..]);
    }
  }

  /** The message of the error validateDomainAccess throws; an absent domain prints as `undefined`. */
  function DomainNotAllowedMessage(emailDomain: Option<string>, allowedDomain: string): string {
    "Domain " + (if emailDomain.Some? then emailDomain.value else "undefined")
    + " is not allowed. Only " + allowedDomain + " is permitted."
  }

  /** A sender is permitted when there is no restriction or its `@` domain equals it, ignoring case. */
  predicate SenderPermitted(fromAddress: string, allowedDomain: Option<string>) {
    !Truthy(allowedDomain) ||
    (EmailDomain(fromAddress).Some? && ToLower(EmailDomain(fromAddress).value) == ToLower(allowedDomain.value))
  }

  /**
   * validateDomainAccess: passes iff the sender is permitted; otherwise throws
   * an error naming the lower-cased extracted domain and the allowed domain.
   */
  function ValidateDomainAccess(fromAddress: string, allowedDomain: Option<string>): (r: Outcome<string>)
    ensures r.Pass? <==> SenderPermitted(fromAddress, allowedDomain)
    ensures !Truthy(allowedDomain) ==> r == Pass
    ensures Truthy(allowedDomain) && '@' !in fromAddress ==> r.Fail?
    ensures r.Fail? ==> r.error == DomainNotAllowedMessage(
      if '@' in fromAddress then Some(ToLower(EmailDomain(fromAddress).value)) else None,
      allowedDomain.value)
  {
    if !Truthy(allowedDomain) then Pass
    else
      var emailDomain := match EmailDomain(fromAddress)
        case Some(d) => Some(ToLower(d))
        case None => None;
      if emailDomain != Some(ToLower(allowedDomain.value)) then
        Fail(DomainNotAllowedMessage(emailDomain, allowedDomain.value))
      else Pass
  }

  /** `"a@X.com"` passes a `"x.com"` restriction: the comparison ignores case. */
  lemma MixedCaseSenderPasses()
    ensures ValidateDomainAccess("a@X.com", Some("x.com")) == Pass
  {
  }

  /** `"a@b@x.com"` is checked as domain `"b"`, so it fails a `"x.com"` restriction. */
  lemma SecondAtSenderChecksMiddlePiece()
    ensures EmailDomain("a@b@x.com") == Some("b")
    ensures ValidateDomainAccess("a@b@x.com", Some("x.com")) == Fail(DomainNotAllowedMessage(Some("b"), "x.com"))
  {
    assert "a@b@x.com" == "a" + ['@'] + "b" + "@x.com";
    EmailDomainIsSecondPiece("a", "b", "@x.com");
    ToLowerFixesNonLetters("b");
    ToLowerFixesNonLetters("x.com");
  }

  /**
   * Only the piece after the first `@` is checked: `"a@x.com@evil.com"`
   * passes a `"x.com"` restriction although its last `@` domain is another.
   */
  lemma OnlySecondPieceIsChecked()
    ensures EmailDomain("a@x.com@evil.com") == Some("x.com")
    ensures ValidateDomainAccess("a@x.com@evil.com", Some("x.com")) == Pass
  {
    assert "a@x.com@evil.com" == "a" + ['@'] + "x.com" + "@evil.com";
    EmailDomainIsSecondPiece("a", "x.com", "@evil.com");
    ToLowerFixesNonLetters("x.com");
  }

  /** A sender without `@` fails an active restriction with `undefined` as its domain. */
  lemma SenderWithoutAtFails()
    ensures ValidateDomainAccess("agent", Some("x.com")) == Fail(DomainNotAllowedMessage(None, "x.com"))
  {
  }
}
