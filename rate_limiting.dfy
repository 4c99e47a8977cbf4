/** Rate-limit configuration (config/rate_limiting.py): the per-endpoint
    limits, the choice of default limits by environment, and the key a
    request is counted under. */
module RateLimiting {
  import opened Values
  import opened Text

  const DefaultLimits: seq<string> := ["200 per day", "50 per hour", "10 per minute"]
  const ProductionLimits: seq<string> := ["1000 per day", "200 per hour", "30 per minute"]

  /** `get_rate_limit_for_endpoint(name)`: the endpoint's own limits, or None. */
  function RateLimitForEndpoint(name: string): (r: Option<seq<string>>)
    ensures r.Some? <==> name in {"api.login", "api.register", "api.forgot_password", "api.health_check", "api.docs"}
    ensures r.Some? ==> |r.value| == 1
  {
    match name
    case "api.login" => Some(["5 per minute"])
    case "api.register" => Some(["3 per minute"])
    case "api.forgot_password" => Some(["3 per minute"])
    case "api.health_check" => Some(["1000 per minute"])
    case "api.docs" => Some(["100 per minute"])
    case _ => None
  }

  /** The five endpoints' own limits; any other endpoint, such as the user
      list, has none and falls back to the defaults. */
  lemma EndpointLimits()
    ensures RateLimitForEndpoint("api.login") == Some(["5 per minute"])
    ensures RateLimitForEndpoint("api.register") == RateLimitForEndpoint("api.forgot_password")
    ensures RateLimitForEndpoint("api.register") == Some(["3 per minute"])
    ensures RateLimitForEndpoint("api.health_check") == Some(["1000 per minute"])
    ensures RateLimitForEndpoint("api.docs") == Some(["100 per minute"])
    ensures RateLimitForEndpoint("api.users") == None
  {
  }

  /** The default limits `setup_rate_limiting` installs, from the app's
      config: the production list iff `ENV` (default 'development') is 'production'. */
  function LimitsFor(config: map<string, Value>): (r: seq<string>)
    ensures r == ProductionLimits <==> Get(config, "ENV", Str("development")) == Str("production")
    ensures r == DefaultLimits <==> Get(config, "ENV", Str("development")) != Str("production")
  {
    if Get(config, "ENV", Str("development")) == Str("production") then ProductionLimits else DefaultLimits
  }

  /** Without an `ENV` entry the development limits apply. */
  lemma DefaultEnvironment(config: map<string, Value>)
    requires "ENV" !in config
    ensures LimitsFor(config) == DefaultLimits
  {
  }

  /** Where `get_rate_limit_key` is called: outside any request (flask raises
      RuntimeError), or in a request with its `request.user` (None when absent
      or falsy) and its remote address (None when the server gave none). */
  datatype Context =
    | OutsideRequest
    | InRequest(user: Option<nat>, remoteAddr: Option<string>)

  const UserPrefix := "user_"
  const LocalAddress := "127.0.0.1"

  /** `get_remote_address()` of flask_limiter: the remote address, or the
      loopback address when it is missing or empty. */
  function RemoteAddress(remoteAddr: Option<string>): string {
    if remoteAddr.Some? && remoteAddr.value != "" then remoteAddr.value else LocalAddress
  }

  /** `get_rate_limit_key()`. */
  function RateLimitKey(ctx: Context): (r: string)
    ensures ctx.OutsideRequest? ==> r == "test"
    ensures ctx.InRequest? && ctx.user.Some? ==> r == UserPrefix + NatToDecimal(ctx.user.value)
    ensures ctx.InRequest? && ctx.user.None? ==> r == RemoteAddress(ctx.remoteAddr) && r != ""
  {
    match ctx
    case OutsideRequest => "test"
    case InRequest(user, addr) =>
      if user.Some? then UserPrefix + NatToDecimal(user.value) else RemoteAddress(addr)
  }

  /** Two signed-in users are never counted under the same key, and the key
      gives the user's id back. */
  lemma UserKeysDistinct(a: nat, b: nat, addrA: Option<string>, addrB: Option<string>)
    requires RateLimitKey(InRequest(Some(a), addrA)) == RateLimitKey(InRequest(Some(b), addrB))
    ensures a == b
  {
    var ka := RateLimitKey(InRequest(Some(a), addrA));
    assert ka[|UserPrefix|..] == NatToDecimal(a);
    assert RateLimitKey(InRequest(Some(b), addrB))[|UserPrefix|..] == NatToDecimal(b);
    NatToDecimalInjective(a, b);
  }

  /** The key of a signed-in user reads back as that user's id. */
  lemma UserKeyRoundTrip(id: nat, addr: Option<string>)
    ensures var k := RateLimitKey(InRequest(Some(id), addr));
      |k| > |UserPrefix| && k[..|UserPrefix|] == UserPrefix
      && (forall i :: |UserPrefix| <= i < |k| ==> '0' <= k[i] <= '9')
      && DecimalValue(k[|UserPrefix|..]) == id
  {
    var k := RateLimitKey(InRequest(Some(id), addr));
    assert k[|UserPrefix|..] == NatToDecimal(id);
    DecimalRoundTrip(id);
  }
}
