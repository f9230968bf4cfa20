/** `DiskcacheAuthCookies`: a session is a random token kept both in a cookie
    and in a server-side cache keyed by username, valid for 200 seconds.
    Time is an integer clock in seconds; the token is supplied by the caller. */
module CacheCookies {
  import opened Framework

  /** One cache value: the session token and the time it stops being valid. */
  datatype CacheEntry = CacheEntry(authToken: string, expires: int)

  /** How long a session lasts after `set`. */
  const SessionSeconds := 200

  /** The cookies name a cached user whose token matches and whose session has
      not expired at `now`. */
  predicate SessionValid(dc: map<string, CacheEntry>, jar: map<string, string>, now: int)
  {
    && "auth_username" in jar && "auth_token" in jar
    && jar["auth_username"] in dc
    && dc[jar["auth_username"]].authToken == jar["auth_token"]
    && dc[jar["auth_username"]].expires >= now
  }

  class DiskcacheAuthCookies {
    /** The `diskcache` cache: username to session. */
    var dc: map<string, CacheEntry>

    constructor (dc: map<string, CacheEntry>)
      ensures this.dc == dc
    {
      this.dc := dc;
    }

    /** True iff the cookies carry a username whose cached session has the
        same token and has not expired. */
    method Check(cookies: CookieManager, now: int) returns (valid: bool)
      ensures valid == SessionValid(dc, cookies.jar, now)
    {
      if "auth_username" !in cookies.jar && "auth_token" in cookies.jar {
        return false;
      }
      var localUsername := Get(cookies.jar, "auth_username");
      var localToken := Get(cookies.jar, "auth_token");
      // `dc.get(None)` finds nothing: the cache is only ever keyed by usernames.
      if localUsername.Some? && localUsername.value in dc {
        var userCache := dc[localUsername.value];
        if Some(userCache.authToken) == localToken && userCache.expires >= now {
          return true;
        }
        // The source reports "Session expired..." here.
      }
      return false;
    }

    /** Caches `(token, now + 200)` for the user and sets both cookies. */
    method Set(username: string, cookies: CookieManager, token: string, now: int)
      modifies this, cookies
      ensures dc == old(dc)[username := CacheEntry(token, now + SessionSeconds)]
      ensures cookies.jar == old(cookies.jar)["auth_token" := token]["auth_username" := username]
    {
      var expires := now + SessionSeconds;
      dc := dc[username := CacheEntry(token, expires)];
      cookies.jar := cookies.jar["auth_token" := token];
      cookies.jar := cookies.jar["auth_username" := username];
    }

    /** Expires the `auth_token` and `groups` cookies, then pops `groups` from
        the state; popping an absent key raises `KeyError`, reported as
        `raised`. The username cookie and the cache are left as they are. */
    method Expire(cookies: CookieManager, state: SessionState) returns (raised: bool)
      modifies cookies, state
      ensures cookies.jar == old(cookies.jar) - {"auth_token", "groups"}
      ensures raised <==> "groups" !in old(state.entries)
      ensures state.entries == old(state.entries) - {"groups"}
    {
      cookies.jar := cookies.jar - {"auth_token"};
      cookies.jar := cookies.jar - {"groups"};
      if "groups" !in state.entries {
        return true;
      }
      state.entries := state.entries - {"groups"};
      return false;
    }
  }

  /** A token cookie without a username cookie is never a valid session. */
  lemma TokenWithoutUsername(dc: map<string, CacheEntry>, jar: map<string, string>, now: int)
    requires "auth_token" in jar && "auth_username" !in jar
    ensures !SessionValid(dc, jar, now)
  {
  }

  /** After `set(u)` at time `t` with token `k`, the session is valid at every
      time up to `t + 200` and at no later time. */
  lemma SetThenCheck(dc: map<string, CacheEntry>, jar: map<string, string>, username: string, token: string, t: int, now: int)
    ensures SessionValid(dc[username := CacheEntry(token, t + SessionSeconds)],
                         jar["auth_token" := token]["auth_username" := username], now)
        <==> now <= t + SessionSeconds
  {
  }

  /** After `expire` no session is valid, whatever the cache holds. */
  lemma ExpireThenCheck(dc: map<string, CacheEntry>, jar: map<string, string>, now: int)
    ensures !SessionValid(dc, jar - {"auth_token", "groups"}, now)
  {
  }

  /** A later `set` for the same user with a different token invalidates an
      earlier session cookie of that user. */
  lemma NewTokenRevokesOld(dc: map<string, CacheEntry>, jar: map<string, string>, username: string, token: string, t: int, now: int)
    requires "auth_username" in jar && jar["auth_username"] == username
    requires "auth_token" in jar && jar["auth_token"] != token
    ensures !SessionValid(dc[username := CacheEntry(token, t + SessionSeconds)], jar, now)
  {
  }
}
