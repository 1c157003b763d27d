/**
 * The request guard of the MCP server (LovableMCPServer.validate_request in
 * src/server/server.py): every endpoint first checks the X-API-Key header and
 * then consults the server's rate limiter.
 */
module Server {
  import opened RateLimit

  datatype Option<T> = None | Some(value: T)

  /** The HTTP errors the guard raises, with the reasons it gives. */
  datatype HttpError = Unauthorized(reason: string) | TooManyRequests(reason: string) {
    function Status(): int {
      match this
      case Unauthorized(_) => 401
      case TooManyRequests(_) => 429
    }
  }

  datatype Result<T> = Ok(value: T) | Err(error: HttpError)

  const ApiKeyRequired: string := "API key required"
  const RateLimitExceeded: string := "Rate limit exceeded. Please try again later."

  /** The header counts as present only when it is there and not empty. */
  predicate HasApiKey(header: Option<string>) {
    header.Some? && header.value != ""
  }

  class McpServer {
    /** The server's one limiter, built with the default budget. */
    const rateLimiter: RateLimiter<string>

    ghost predicate Valid()
      reads this, rateLimiter
    {
      rateLimiter.Valid()
    }

    constructor ()
      ensures fresh(rateLimiter) && Valid()
      ensures rateLimiter.requestsPerMinute == DefaultRequestsPerMinute
      ensures rateLimiter.requests == map[] && rateLimiter.admitted == map[]
      ensures !rateLimiter.started && rateLimiter.monotone
    {
      rateLimiter := new RateLimiter(DefaultRequestsPerMinute);
    }

    /**
     * Rejects a request without an API key before the limiter is consulted;
     * otherwise asks the limiter, rejects a limited request and returns the key.
     */
    method ValidateRequest(header: Option<string>, now: int) returns (r: Result<string>)
      requires Valid()
      modifies rateLimiter
      ensures Valid()
      ensures !HasApiKey(header) ==> r == Err(Unauthorized(ApiKeyRequired)) && unchanged(rateLimiter)
      ensures HasApiKey(header) ==>
                var key := header.value;
                var kept := Prune(Lookup(old(rateLimiter.requests), key), now - WindowSeconds);
                && r == (if |kept| >= rateLimiter.requestsPerMinute then Err(TooManyRequests(RateLimitExceeded)) else Ok(key))
                && Lookup(rateLimiter.requests, key) == (if r.Ok? then kept + [now] else kept)
                && Lookup(rateLimiter.admitted, key) == (if r.Ok? then Lookup(old(rateLimiter.admitted), key) + [now] else Lookup(old(rateLimiter.admitted), key))
                && rateLimiter.requests.Keys == old(rateLimiter.requests.Keys) + {key}
                && (forall k :: k != key ==> Lookup(rateLimiter.requests, k) == Lookup(old(rateLimiter.requests), k))
                && (forall k :: k != key ==> Lookup(rateLimiter.admitted, k) == Lookup(old(rateLimiter.admitted), k))
                && rateLimiter.started && rateLimiter.lastNow == now
                && rateLimiter.monotone == (old(rateLimiter.monotone) && (!old(rateLimiter.started) || old(rateLimiter.lastNow) <= now))
                && (rateLimiter.monotone ==>
                      |Prune(Lookup(rateLimiter.admitted, key), now - WindowSeconds)| <= Cap(rateLimiter.requestsPerMinute))
      ensures r.Err? ==> r.error.Status() == if HasApiKey(header) then 429 else 401
    {
      if !HasApiKey(header) {
        return Err(Unauthorized(ApiKeyRequired));
      }
      var limited := rateLimiter.IsRateLimited(header.value, now);
      if rateLimiter.monotone {
        rateLimiter.WindowBound(header.value);
      }
      if limited {
        return Err(TooManyRequests(RateLimitExceeded));
      }
      return Ok(header.value);
    }
  }
}
