/**
 Authorization and callback URLs of a protocol sign-in. A URL is the record the parser yields; the
 parser itself is a parameter.
 */
module CallbackUrls {
  import opened Collections

  const MAX_AUTH_URL_BYTES: nat := 8 * 1024

  datatype Host = Ipv4Loopback | Ipv6Loopback | Localhost | Elsewhere | NoHost

  datatype Url = Url(
    scheme: string,
    host: Host,
    port: Option<nat>,
    path: string,
    query: Option<seq<(string, string)>>,
    username: string,
    password: Option<string>,
    fragment: Option<string>)

  /** Submitted text: its size in bytes, the trimmed text, and what the parser makes of it. */
  datatype Raw = Raw(bytes: nat, text: string, parsed: Option<Url>)

  datatype UrlError =
    | TooLarge | Malformed | NotHttps | MissingRedirect | MissingState | InvalidRedirect | NotLoopback
    | MissingPort | Credentials | InvalidCallback | WrongEndpoint | WrongState | MissingResult
    | CallbackInProgress | FlowFinished

  datatype Redirect = Redirect(host: Host, port: nat, path: string)

  datatype AuthorizationRequest = AuthorizationRequest(authorizationUrl: string, redirect: Redirect, state: string)

  predicate IsLoopback(host: Host) {
    host.Ipv4Loopback? || host.Ipv6Loopback? || host.Localhost?
  }

  /** `localhost` is never resolved: its literal is the IPv4 one. */
  function RelayHost(host: Host): Host {
    if host.Ipv6Loopback? then Ipv6Loopback else Ipv4Loopback
  }

  function Pairs(url: Url): seq<(string, string)> {
    if url.query.Some? then url.query.value else []
  }

  function PathOf(url: Url): string {
    if url.path == "" then "/" else url.path
  }

  predicate HasKey(pair: (string, string), key: string) {
    pair.0 == key
  }

  function UniqueQueryValue(pairs: seq<(string, string)>, key: string): Option<string> {
    var values := Filter(pair => HasKey(pair, key), pairs);
    if |values| == 1 then Some(values[0].1) else None
  }

  /** The key stands at exactly one place, with this value. */
  ghost predicate OnlyPair(pairs: seq<(string, string)>, key: string, value: string, i: nat) {
    i < |pairs| && pairs[i] == (key, value) && forall j :: 0 <= j < |pairs| && j != i ==> !HasKey(pairs[j], key)
  }

  lemma {:induction false} KeyAbsent(pairs: seq<(string, string)>, key: string)
    ensures Filter(pair => HasKey(pair, key), pairs) == [] <==> forall j :: 0 <= j < |pairs| ==> !HasKey(pairs[j], key)
  {
    if pairs != [] {
      KeyAbsent(pairs[1..], key);
      assert forall j :: 1 <= j < |pairs| ==> pairs[j] == pairs[1..][j - 1];
    }
  }

  /** A value is found exactly when its key is given once. */
  lemma {:induction false} UniqueMeaning(pairs: seq<(string, string)>, key: string, value: string)
    ensures UniqueQueryValue(pairs, key) == Some(value) <==> exists i: nat :: OnlyPair(pairs, key, value, i)
  {
    if pairs != [] {
      var rest := pairs[1..];
      UniqueMeaning(rest, key, value);
      KeyAbsent(rest, key);
      if HasKey(pairs[0], key) {
        if UniqueQueryValue(pairs, key) == Some(value) {
          assert forall j :: 1 <= j < |pairs| ==> pairs[j] == rest[j - 1];
          assert OnlyPair(pairs, key, value, 0);
        }
        if i: nat :| OnlyPair(pairs, key, value, i) {
          assert i == 0;
          assert forall j :: 0 <= j < |rest| ==> rest[j] == pairs[j + 1];
        }
      } else {
        if i: nat :| OnlyPair(rest, key, value, i) {
          assert OnlyPair(pairs, key, value, i + 1) by {
            forall j | 0 <= j < |pairs| && j != i + 1
              ensures !HasKey(pairs[j], key)
            {
              if j > 0 { assert pairs[j] == rest[j - 1]; }
            }
          }
        }
        if i: nat :| OnlyPair(pairs, key, value, i) {
          assert i > 0;
          assert OnlyPair(rest, key, value, i - 1) by {
            assert forall j :: 0 <= j < |rest| ==> rest[j] == pairs[j + 1];
          }
        }
      }
    }
  }

  // ------------------------------------------------------------ the authorization URL

  /** `parse` is the URL parser, applied to the redirect value. */
  function ParseAuthorizationUrl(raw: Raw, parse: string -> Option<Url>): Result<AuthorizationRequest, UrlError> {
    if raw.bytes > MAX_AUTH_URL_BYTES then Err(TooLarge)
    else if raw.parsed.None? then Err(Malformed)
    else
      var url := raw.parsed.value;
      if url.scheme != "https" then Err(NotHttps)
      else if url.host.NoHost? || url.username != "" || url.password.Some? then Err(Credentials)
      else if url.fragment.Some? then Err(Malformed)
      else
        var redirect := UniqueQueryValue(Pairs(url), "redirect_uri");
        if redirect.None? then Err(MissingRedirect)
        else
          var state := UniqueQueryValue(Pairs(url), "state");
          if state.None? || state.value == "" then Err(MissingState)
          else if parse(redirect.value).None? then Err(InvalidRedirect)
          else
            var target := parse(redirect.value).value;
            if target.scheme != "http" || target.username != "" || target.password.Some? || target.fragment.Some?
              || target.query.Some?
            then Err(InvalidRedirect)
            else if !IsLoopback(target.host) then Err(NotLoopback)
            else if target.port.None? then Err(MissingPort)
            else Ok(AuthorizationRequest(raw.text, Redirect(target.host, target.port.value, PathOf(target)),
                                         state.value))
  }

  ghost predicate GivesOnce(url: Url, key: string, value: string) {
    exists i: nat :: OnlyPair(Pairs(url), key, value, i)
  }

  /** What a redirect must be: plain HTTP to a loopback host and explicit port, nothing else in it. */
  predicate PlainLoopback(target: Url) {
    && target.scheme == "http" && target.username == "" && target.password.None? && target.fragment.None?
    && target.query.None?
    && IsLoopback(target.host) && target.port.Some?
  }

  /** A sign-in is captured exactly from an HTTPS URL without credentials or fragment that gives, once
      each, a non-empty state and a plain loopback redirect. */
  lemma CapturedExactly(raw: Raw, parse: string -> Option<Url>)
    ensures ParseAuthorizationUrl(raw, parse).Ok? <==>
              && raw.bytes <= MAX_AUTH_URL_BYTES && raw.parsed.Some?
              && var url := raw.parsed.value;
              && url.scheme == "https" && !url.host.NoHost? && url.username == "" && url.password.None?
              && url.fragment.None?
              && exists redirect, state ::
                   GivesOnce(url, "redirect_uri", redirect) && GivesOnce(url, "state", state) && state != ""
                   && parse(redirect).Some? && PlainLoopback(parse(redirect).value)
    ensures ParseAuthorizationUrl(raw, parse).Ok? ==>
              var request := ParseAuthorizationUrl(raw, parse).value;
              && request.authorizationUrl == raw.text
              && request.state != "" && GivesOnce(raw.parsed.value, "state", request.state)
              && exists redirect :: GivesOnce(raw.parsed.value, "redirect_uri", redirect) && parse(redirect).Some?
                   && var target := parse(redirect).value;
                   && PlainLoopback(target)
                   && request.redirect == Redirect(target.host, target.port.value,
                                                   if target.path == "" then "/" else target.path)
  {
    if raw.parsed.Some? {
      var pairs := Pairs(raw.parsed.value);
      forall value
        ensures UniqueQueryValue(pairs, "redirect_uri") == Some(value) <==>
                  GivesOnce(raw.parsed.value, "redirect_uri", value)
        ensures UniqueQueryValue(pairs, "state") == Some(value) <==> GivesOnce(raw.parsed.value, "state", value)
      {
        UniqueMeaning(pairs, "redirect_uri", value);
        UniqueMeaning(pairs, "state", value);
      }
      hide UniqueQueryValue, OnlyPair;
    }
  }

  /** What the reason of a refused capture says is so. */
  lemma CaptureRefusalIsTrue(raw: Raw, parse: string -> Option<Url>)
    requires ParseAuthorizationUrl(raw, parse).Err?
    ensures var error := ParseAuthorizationUrl(raw, parse).error;
            && (error.TooLarge? <==> raw.bytes > 8192)
            && (raw.bytes <= 8192 && raw.parsed.None? ==> error.Malformed?)
            && (raw.bytes <= 8192 && raw.parsed.Some? ==>
                  var url := raw.parsed.value;
                  && (error.NotHttps? <==> url.scheme != "https")
                  && (error.Credentials? ==> url.host.NoHost? || url.username != "" || url.password.Some?)
                  && (error.Malformed? ==> url.fragment.Some?)
                  && (error.MissingRedirect? ==> forall value :: !GivesOnce(url, "redirect_uri", value))
                  && (error.MissingState? ==> forall value :: value != "" ==> !GivesOnce(url, "state", value))
                  && (error.InvalidRedirect? || error.NotLoopback? || error.MissingPort? ==>
                        exists redirect :: GivesOnce(url, "redirect_uri", redirect)
                          && Unfit(error, parse(redirect))))
  {
    if raw.parsed.Some? {
      var pairs := Pairs(raw.parsed.value);
      forall value
        ensures UniqueQueryValue(pairs, "redirect_uri") == Some(value) <==>
                  GivesOnce(raw.parsed.value, "redirect_uri", value)
        ensures UniqueQueryValue(pairs, "state") == Some(value) <==> GivesOnce(raw.parsed.value, "state", value)
      {
        UniqueMeaning(pairs, "redirect_uri", value);
        UniqueMeaning(pairs, "state", value);
      }
      hide UniqueQueryValue, OnlyPair, GivesOnce;
      var redirect := UniqueQueryValue(pairs, "redirect_uri");
      if redirect.Some? {
        assert GivesOnce(raw.parsed.value, "redirect_uri", redirect.value);
      }
    }
  }

  /** A redirect is no plain HTTP URL, not to a loopback host, or without a port. */
  predicate Unfit(error: UrlError, target: Option<Url>) {
    match error
    case InvalidRedirect =>
      target.None? || target.value.scheme != "http" || target.value.username != "" || target.value.password.Some?
      || target.value.fragment.Some? || target.value.query.Some?
    case NotLoopback => target.Some? && !IsLoopback(target.value.host)
    case MissingPort => target.Some? && target.value.port.None?
    case _ => false
  }

  // ------------------------------------------------------------ the callback URL

  predicate OneResult(code: Option<string>, error: Option<string>) {
    !(code == Some("") || error == Some("") || (code.Some? && error.Some?) || (code.None? && error.None?))
  }

  function RelayUrl(redirect: Redirect, query: Option<seq<(string, string)>>): Url {
    Url("http", RelayHost(redirect.host), Some(redirect.port), redirect.path, query, "", None, None)
  }

  /** The relay target for a submitted callback, derived from the captured request. */
  function ValidateCallback(request: AuthorizationRequest, raw: Raw): Result<Url, UrlError> {
    if raw.bytes > MAX_AUTH_URL_BYTES then Err(TooLarge)
    else if raw.parsed.None? then Err(InvalidCallback)
    else
      var url := raw.parsed.value;
      if url.scheme != "http" || url.username != "" || url.password.Some? || url.fragment.Some?
      then Err(InvalidCallback)
      else if !IsLoopback(url.host) then Err(InvalidCallback)
      else if url.host != request.redirect.host || url.port != Some(request.redirect.port)
        || PathOf(url) != request.redirect.path
      then Err(WrongEndpoint)
      else
        var state := UniqueQueryValue(Pairs(url), "state");
        if state != Some(request.state) then Err(WrongState)
        else if !OneResult(UniqueQueryValue(Pairs(url), "code"), UniqueQueryValue(Pairs(url), "error"))
        then Err(MissingResult)
        else Ok(RelayUrl(request.redirect, url.query))
  }

  /** The callback reports: exactly one of a code and an error, each counted only when given once. */
  ghost predicate Reports(url: Url, key: string, other: string) {
    (exists value :: value != "" && GivesOnce(url, key, value)) && !exists value :: GivesOnce(url, other, value)
  }

  ghost predicate Acceptable(request: AuthorizationRequest, url: Url) {
    && url.scheme == "http" && url.username == "" && url.password.None? && url.fragment.None?
    && url.host == request.redirect.host && url.port == Some(request.redirect.port)
    && PathOf(url) == request.redirect.path
    && GivesOnce(url, "state", request.state)
    && (Reports(url, "code", "error") || Reports(url, "error", "code"))
  }

  lemma ResultMeaning(url: Url)
    ensures OneResult(UniqueQueryValue(Pairs(url), "code"), UniqueQueryValue(Pairs(url), "error")) <==>
              Reports(url, "code", "error") || Reports(url, "error", "code")
  {
    var pairs := Pairs(url);
    forall value
      ensures UniqueQueryValue(pairs, "code") == Some(value) <==> GivesOnce(url, "code", value)
      ensures UniqueQueryValue(pairs, "error") == Some(value) <==> GivesOnce(url, "error", value)
    {
      UniqueMeaning(pairs, "code", value);
      UniqueMeaning(pairs, "error", value);
    }
    hide UniqueQueryValue, GivesOnce;
    var code, error := UniqueQueryValue(pairs, "code"), UniqueQueryValue(pairs, "error");
    if code.Some? { assert GivesOnce(url, "code", code.value); }
    if error.Some? { assert GivesOnce(url, "error", error.value); }
  }

  /** A callback is relayed exactly when it is acceptable, and then to the captured port and path at the
      captured host's literal address, with the submitted query and nothing else. */
  lemma RelayedExactly(request: AuthorizationRequest, raw: Raw)
    requires IsLoopback(request.redirect.host)
    ensures ValidateCallback(request, raw).Ok? <==>
              raw.bytes <= MAX_AUTH_URL_BYTES && raw.parsed.Some? && Acceptable(request, raw.parsed.value)
    ensures ValidateCallback(request, raw).Ok? ==>
              var target := ValidateCallback(request, raw).value;
              && target.scheme == "http" && target.port == Some(request.redirect.port)
              && target.path == request.redirect.path
              && (target.host.Ipv4Loopback? || target.host.Ipv6Loopback?)
              && (target.host.Ipv6Loopback? <==> request.redirect.host.Ipv6Loopback?)
              && target.query == raw.parsed.value.query && target.username == "" && target.password.None?
              && target.fragment.None?
  {
    if raw.parsed.Some? {
      ResultMeaning(raw.parsed.value);
      UniqueMeaning(Pairs(raw.parsed.value), "state", request.state);
    }
  }

  /** And what the reason of a refused callback says is so. */
  lemma CallbackRefusalIsTrue(request: AuthorizationRequest, raw: Raw)
    requires ValidateCallback(request, raw).Err?
    ensures var error := ValidateCallback(request, raw).error;
            && (error.TooLarge? <==> raw.bytes > 8192)
            && (raw.bytes <= 8192 && raw.parsed.None? ==> error.InvalidCallback?)
            && (raw.bytes <= 8192 && raw.parsed.Some? ==>
                  var url := raw.parsed.value;
                  && (error.InvalidCallback? <==>
                        url.scheme != "http" || url.username != "" || url.password.Some? || url.fragment.Some?
                        || !IsLoopback(url.host))
                  && (error.WrongEndpoint? ==>
                        url.host != request.redirect.host || url.port != Some(request.redirect.port)
                        || (if url.path == "" then "/" else url.path) != request.redirect.path)
                  && (error.WrongState? ==> !GivesOnce(url, "state", request.state))
                  && (error.MissingResult? ==> !Reports(url, "code", "error") && !Reports(url, "error", "code"))
                  && (error.InvalidCallback? || error.WrongEndpoint? || error.WrongState? || error.MissingResult?))
  {
    if raw.parsed.Some? {
      ResultMeaning(raw.parsed.value);
      UniqueMeaning(Pairs(raw.parsed.value), "state", request.state);
      hide UniqueQueryValue;
    }
  }

  /** Submitting a relay target again yields the same target, exactly when the captured host was a literal. */
  lemma RelayIsFixed(request: AuthorizationRequest, raw: Raw, again: Raw)
    requires IsLoopback(request.redirect.host) && request.redirect.path != ""
    requires ValidateCallback(request, raw).Ok?
    requires again.bytes <= MAX_AUTH_URL_BYTES && again.parsed == Some(ValidateCallback(request, raw).value)
    ensures ValidateCallback(request, again) == ValidateCallback(request, raw) <==> !request.redirect.host.Localhost?
  {
    hide UniqueQueryValue;
    assert Pairs(again.parsed.value) == Pairs(raw.parsed.value);
  }
}
