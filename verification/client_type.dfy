/** ClientTypeDetector: decides from two request headers whether the caller is a
    browser (refresh token travels in an HTTP-only cookie) or a native app
    (refresh token travels in the JSON body). */
module ClientType {
  import opened Base
  import opened Text

  datatype Client = Web | Mobile

  /** The two headers the detector reads; `None` is a missing header. */
  datatype Headers = Headers(clientType: Option<string>, userAgent: Option<string>)

  /** User-Agent fragments (already lower-case) that identify a native client:
      app names, Android and iOS HTTP stacks, cross-platform frameworks. */
  const MobileSignatures: seq<string> := [
    "myauthmobileapp", "myapp",
    "okhttp", "volley", "retrofit",
    "cfnetwork", "nsurlsession", "nsurlconnection",
    "react native", "reactnative",
    "flutter", "dart",
    "expo"
  ]

  /** `"mobile-app".equalsIgnoreCase(clientType)`; false for a missing header. */
  predicate SaysMobile(clientType: Option<string>) {
    clientType.Some? && EqualsIgnoreCase("mobile-app", clientType.value)
  }

  /** `"web".equalsIgnoreCase(clientType)`; false for a missing header. */
  predicate SaysWeb(clientType: Option<string>) {
    clientType.Some? && EqualsIgnoreCase("web", clientType.value)
  }

  /** `isMobileApp` on an already lower-cased User-Agent. The source tests the
      signatures in six groups, each returning true on a hit and false only after
      the last; that chain is exactly this disjunction over the list. */
  predicate IsMobileApp(ua: string) {
    exists k :: k in MobileSignatures && Contains(ua, k)
  }

  /** `isWebClient`'s decision: the explicit header wins, then the User-Agent
      heuristic, then the Web default. Total: every header set gets an answer. */
  function Classify(h: Headers): (c: Client)
    ensures SaysMobile(h.clientType) ==> c == Mobile
    ensures SaysWeb(h.clientType) ==> c == Web
    ensures !SaysMobile(h.clientType) && !SaysWeb(h.clientType) ==>
      (c == Mobile <==> h.userAgent.Some? &&
                        exists k :: k in MobileSignatures && Contains(Lower(h.userAgent.value), k))
  {
    if SaysMobile(h.clientType) then Mobile
    else if SaysWeb(h.clientType) then Web
    else if h.userAgent.Some? && IsMobileApp(Lower(h.userAgent.value)) then Mobile
    else Web
  }

  predicate IsWebClient(h: Headers) {
    Classify(h) == Web
  }

  /** `getClientTypeString`: the label logged for a request. */
  function ClientTypeString(h: Headers): (s: string)
    ensures s == "WEB" <==> IsWebClient(h)
    ensures s == "MOBILE" <==> !IsWebClient(h)
  {
    if IsWebClient(h) then "WEB" else "MOBILE"
  }

  /** Without a decisive header or a User-Agent the caller is treated as a browser. */
  lemma NoHeadersMeansWeb(clientType: Option<string>)
    requires !SaysMobile(clientType) && !SaysWeb(clientType)
    ensures Classify(Headers(clientType, None)) == Web
  {
  }

  /** The explicit header is matched ignoring ASCII case, e.g. "Mobile-App". */
  lemma MixedCaseHeaderIsMobile(userAgent: Option<string>)
    ensures Classify(Headers(Some("Mobile-App"), userAgent)) == Mobile
  {
  }

  /** A User-Agent carrying any capitalisation of a signature, anywhere, marks a
      native client when no explicit header decides. */
  lemma {:induction false} SignatureAnywhereIsMobile(pre: string, sig: string, post: string, clientType: Option<string>)
    requires Lower(sig) in MobileSignatures
    requires !SaysMobile(clientType) && !SaysWeb(clientType)
    ensures Classify(Headers(clientType, Some(pre + sig + post))) == Mobile
  {
    LowerConcat(pre + sig, post);
    LowerConcat(pre, sig);
    ContainsInfix(Lower(pre), Lower(sig), Lower(post));
  }

  /** The Android example of an OkHttp client. */
  lemma OkHttpUserAgentIsMobile()
    ensures Classify(Headers(None, Some("okhttp/4.9.0"))) == Mobile
  {
    assert "okhttp/4.9.0" == "" + "okhttp" + "/4.9.0";
    assert Lower("okhttp") == "okhttp";
    SignatureAnywhereIsMobile("", "okhttp", "/4.9.0", None);
  }

  /** A plain browser User-Agent, "Mozilla/5.0" in any letter case, without
      an explicit header is Web: each signature holds a letter that
      "mozilla/5.0" lacks. */
  lemma BrowserUserAgentIsWeb(ua: string)
    requires Lower(ua) == "mozilla/5.0"
    ensures Classify(Headers(None, Some(ua))) == Web
  {
    BrowserAgentHasNoSignature();
    UndecidedWithoutSignatureIsWeb(Headers(None, Some(ua)));
  }

  lemma BrowserAgentHasNoSignature()
    ensures !IsMobileApp("mozilla/5.0")
  {
    NoSignatureWithout("mozilla/5.0");
  }

  lemma UndecidedWithoutSignatureIsWeb(h: Headers)
    requires h.clientType.None? && h.userAgent.Some? && !IsMobileApp(Lower(h.userAgent.value))
    ensures Classify(h) == Web
  {
  }

  /** No signature fits in a text lacking the letters c, d, e, f, k, n, r, v, y. */
  lemma NoSignatureWithout(ua: string)
    requires 'c' !in ua && 'd' !in ua && 'e' !in ua && 'f' !in ua && 'k' !in ua
    requires 'n' !in ua && 'r' !in ua && 'v' !in ua && 'y' !in ua
    ensures !IsMobileApp(ua)
  {
    MissingCharNotContained(ua, "myauthmobileapp", 'y');
    MissingCharNotContained(ua, "myapp", 'y');
    MissingCharNotContained(ua, "okhttp", 'k');
    MissingCharNotContained(ua, "volley", 'v');
    MissingCharNotContained(ua, "retrofit", 'r');
    MissingCharNotContained(ua, "cfnetwork", 'c');
    MissingCharNotContained(ua, "nsurlsession", 'n');
    MissingCharNotContained(ua, "nsurlconnection", 'n');
    MissingCharNotContained(ua, "react native", 'r');
    MissingCharNotContained(ua, "reactnative", 'r');
    MissingCharNotContained(ua, "flutter", 'f');
    MissingCharNotContained(ua, "dart", 'd');
    MissingCharNotContained(ua, "expo", 'e');
  }
}
