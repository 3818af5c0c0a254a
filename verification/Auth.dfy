/**
 auth-server/src/tokens/tokens.service.ts and auth-server/src/auth/auth.service.ts: minting,
 saving, checking and revoking tokens. Every `Date.now()` and every server-side instant is a
 parameter (milliseconds); `exp` and `iat` are NumericDates in seconds, as in sections 2 and
 4.1.4 of RFC 7519.
 */
module Auth {
  import opened Prelude
  import opened Cache

  // ---------------------------------------------------------------- tokens

  /** A refresh token's claims have no e-mail and no roles. */
  datatype Claims = Claims(sub: string, jti: string, iat: int, exp: Option<int>, email: Option<string>, roles: Option<seq<string>>)

  /** The token library: `authentic` is "the signature is ours", `trim` is String.trim. */
  datatype Jwt = Jwt(
    sign: Claims -> string,
    decode: string -> Option<Claims>,
    authentic: string -> bool,
    trim: string -> string)

  /** What is relied on: signing can be undone, and our tokens have no blanks around them. */
  ghost predicate Lawful(jwt: Jwt) {
    && (forall c :: jwt.decode(jwt.sign(c)) == Some(c) && jwt.authentic(jwt.sign(c)))
    && (forall t :: jwt.authentic(t) ==> jwt.trim(t) == t)
  }

  /** `verify`: authentic and, when it has an `exp`, strictly before it (whole seconds). */
  function Verify(jwt: Jwt, token: string, now: nat): Option<Claims> {
    var c := jwt.decode(token);
    if jwt.authentic(token) && c.Some? && (c.value.exp.None? || now / MS_PER_SECOND < c.value.exp.value)
    then c else None
  }

  function RefreshKey(userId: string): string {
    "refresh_token:" + userId
  }

  function BlacklistKey(token: string): string {
    "blacklist:" + token
  }

  lemma KeysNeverClash()
    ensures forall a, b :: RefreshKey(a) == RefreshKey(b) ==> a == b
    ensures forall a, b :: BlacklistKey(a) == BlacklistKey(b) ==> a == b
    ensures forall a, b :: RefreshKey(a) != BlacklistKey(b)
    ensures forall a, b :: RefreshKey(a) != "user:" + b
    ensures forall a, b :: BlacklistKey(a) != "user:" + b
  {
    forall a, b ensures RefreshKey(a) != BlacklistKey(b) && RefreshKey(a) != "user:" + b && BlacklistKey(a) != "user:" + b {
      assert RefreshKey(a)[0] == 'r' && BlacklistKey(a)[0] == 'b' && BlacklistKey(b)[0] == 'b' && ("user:" + b)[0] == 'u';
    }
    forall a ensures RefreshKey(a)[|"refresh_token:"|..] == a && BlacklistKey(a)[|"blacklist:"|..] == a {}
  }

  // ---------------------------------------------------------------- what each operation does

  /** Seconds for which the saved refresh token is to be kept; None is "Invalid token payload". */
  function RefreshTtl(jwt: Jwt, token: string, now: nat): Option<int> {
    var c := jwt.decode(token);
    if c.None? || c.value.exp.GetOr(0) == 0 then None
    else Some(c.value.exp.value - now / MS_PER_SECOND)
  }

  /** None: saving throws and stores nothing. */
  function SaveRefresh(jwt: Jwt, store: Store, userId: string, token: string, computedAt: nat, storedAt: nat): Option<Store> {
    var ttl := RefreshTtl(jwt, token, computedAt);
    if ttl.None? then None else Put(store, RefreshKey(userId), TokenText(token), ttl, storedAt)
  }

  predicate ValidateRefresh(jwt: Jwt, lenient: bool, store: Store, userId: string, token: string, readAt: nat, verifyAt: nat) {
    var stored := Lookup(lenient, store, RefreshKey(userId), readAt);
    var c := Verify(jwt, token, verifyAt);
    && stored.Some? && stored.value.TokenText?
    && jwt.trim(stored.value.text) == jwt.trim(token)
    && c.Some? && c.value.sub == userId
  }

  function CeilSeconds(ms: nat): nat {
    (ms + MS_PER_SECOND - 1) / MS_PER_SECOND
  }

  /** Seconds for which an access token is to be blacklisted; None: it need not be. */
  function BlacklistTtl(jwt: Jwt, access: string, now: nat): Option<int> {
    var c := jwt.decode(access);
    if c.None? || c.value.exp.None? then None
    else
      var expiry := c.value.exp.value * MS_PER_SECOND - now;
      if expiry > 0 then Some(CeilSeconds(expiry)) else None
  }

  /** Logout: blacklist the access token while it lives, then drop the refresh token. */
  function LogoutStore(jwt: Jwt, store: Store, userId: string, access: string, computedAt: nat, storedAt: nat): Store {
    var ttl := BlacklistTtl(jwt, access, computedAt);
    var marked := if ttl.None? then store
                  else Put(store, BlacklistKey(access), UserMark(userId), ttl, storedAt).GetOr(store);
    marked - {RefreshKey(userId)}
  }

  function ValidateJwt(jwt: Jwt, lenient: bool, store: Store, token: string, readAt: nat, verifyAt: nat): Option<Claims> {
    if Lookup(lenient, store, BlacklistKey(token), readAt).Some? then None else Verify(jwt, token, verifyAt)
  }

  // ---------------------------------------------------------------- what they mean

  /** `ms` is before the token's `exp`, if it has one. */
  predicate Alive(c: Claims, ms: nat) {
    c.exp.Some? ==> ms < c.exp.value * 1000
  }

  /** Something readable stands under the key. */
  predicate Marked(lenient: bool, store: Store, key: string, now: nat) {
    key in store
    && match store[key].deadline
       case None => true
       case Some(d) => now < d || (lenient && now == d)
  }

  /**
   Which tokens are accepted, and with what answer: the claims of an authentic token that is not
   on the blacklist and before its `exp`, if it has one; nothing for any other.
   */
  lemma ValidateJwtMeaning(jwt: Jwt, lenient: bool, store: Store, token: string, readAt: nat, verifyAt: nat)
    ensures var r, c := ValidateJwt(jwt, lenient, store, token, readAt, verifyAt), jwt.decode(token);
            && (r.Some? <==>
                  && !Marked(lenient, store, "blacklist:" + token, readAt)
                  && jwt.authentic(token) && c.Some? && Alive(c.value, verifyAt))
            && (r.Some? ==> r == c)
  {}

  /** Which refresh tokens are accepted for a user. */
  lemma ValidateRefreshMeaning(jwt: Jwt, lenient: bool, store: Store, userId: string, token: string, readAt: nat, verifyAt: nat)
    ensures var key, c := "refresh_token:" + userId, jwt.decode(token);
            ValidateRefresh(jwt, lenient, store, userId, token, readAt, verifyAt)
            <==> && Marked(lenient, store, key, readAt)
                 && store[key].value.TokenText? && jwt.trim(store[key].value.text) == jwt.trim(token)
                 && jwt.authentic(token) && c.Some? && c.value.sub == userId && Alive(c.value, verifyAt)
  {}

  /**
   Logging out touches two keys: the refresh key is gone, and an access token with time left is
   marked for that time, rounded up to whole seconds and no more.
   */
  lemma LogoutTouches(jwt: Jwt, store: Store, userId: string, access: string, computedAt: nat, storedAt: nat)
    ensures var after, c := LogoutStore(jwt, store, userId, access, computedAt, storedAt), jwt.decode(access);
            var mark := "blacklist:" + access;
            && "refresh_token:" + userId !in after
            && (forall k | k != "refresh_token:" + userId && k != mark ::
                  (k in after <==> k in store) && (k in store ==> after[k] == store[k]))
            && (if c.Some? && c.value.exp.Some? && computedAt < c.value.exp.value * 1000
                then && mark in after && after[mark].value == UserMark(userId) && after[mark].deadline.Some?
                     && c.value.exp.value * 1000 - computedAt <= after[mark].deadline.value - storedAt
                     && after[mark].deadline.value - storedAt < c.value.exp.value * 1000 - computedAt + 1000
                     && (after[mark].deadline.value - storedAt) % 1000 == 0
                else (mark in after <==> mark in store) && (mark in store ==> after[mark] == store[mark]))
  {
    KeysNeverClash();
    assert RefreshKey(userId) != BlacklistKey(access);
  }

  /** Saving touches one key, and stores the token there. */
  lemma SaveTouches(jwt: Jwt, store: Store, userId: string, token: string, computedAt: nat, storedAt: nat)
    ensures var saved, key := SaveRefresh(jwt, store, userId, token, computedAt, storedAt), "refresh_token:" + userId;
            saved.Some? ==>
              && key in saved.value && saved.value[key].value == TokenText(token)
              && forall k | k != key :: (k in saved.value <==> k in store) && (k in store ==> saved.value[k] == store[k])
  {}

  // ---------------------------------------------------------------- the services

  class TokensService {
    const cache: CacheService
    const jwt: Jwt

    constructor (cache: CacheService, jwt: Jwt)
      ensures this.cache == cache && this.jwt == jwt
    {
      this.cache := cache;
      this.jwt := jwt;
    }

    method SaveRefreshToken(userId: string, refreshToken: string, computedAt: nat, storedAt: nat) returns (ok: bool)
      modifies cache
      ensures ok == SaveRefresh(jwt, old(cache.store), userId, refreshToken, computedAt, storedAt).Some?
      ensures cache.store
           == SaveRefresh(jwt, old(cache.store), userId, refreshToken, computedAt, storedAt).GetOr(old(cache.store))
    {
      var payload := jwt.decode(refreshToken);
      if payload.None? || payload.value.exp.GetOr(0) == 0 {
        return false;
      }
      var expiresIn := payload.value.exp.value - computedAt / MS_PER_SECOND;
      ok := cache.Set(RefreshKey(userId), TokenText(refreshToken), Some(expiresIn), storedAt);
    }

    method ValidateRefreshToken(userId: string, refreshToken: string, readAt: nat, verifyAt: nat) returns (ok: bool)
      ensures ok == ValidateRefresh(jwt, cache.lenient, cache.store, userId, refreshToken, readAt, verifyAt)
    {
      var result := cache.Get(RefreshKey(userId), readAt);
      if result.None? || !result.value.TokenText? {
        return false;
      }
      if jwt.trim(result.value.text) != jwt.trim(refreshToken) {
        return false;
      }
      var payload := Verify(jwt, refreshToken, verifyAt);
      if payload.None? {
        return false;
      }
      return payload.value.sub == userId;
    }

    method RemoveRefreshToken(userId: string)
      modifies cache
      ensures cache.store == old(cache.store) - {RefreshKey(userId)}
    {
      cache.Delete(RefreshKey(userId));
    }
  }

  datatype Account = Account(id: string, email: string, roles: seq<string>, isActive: bool)

  datatype AuthError = Unauthorized | InternalError

  datatype TokenPair = TokenPair(access: string, refresh: string)

  /** The claims of a pair minted at `now`: one id for each token, lifetimes in seconds. */
  function AccessClaims(user: Account, jti: string, now: nat, life: int): Claims {
    Claims(user.id, jti, now / MS_PER_SECOND, Some(now / MS_PER_SECOND + life), Some(user.email), Some(user.roles))
  }

  function RefreshClaims(userId: string, jti: string, now: nat, life: int): Claims {
    Claims(userId, jti, now / MS_PER_SECOND, Some(now / MS_PER_SECOND + life), None, None)
  }

  /** The instants at which one call reads a clock: checking, signing, TTL arithmetic, storing. */
  datatype Instants = Instants(readAt: nat, verifyAt: nat, signedAt: nat, computedAt: nat, storedAt: nat)

  class AuthService {
    const cache: CacheService
    const tokens: TokensService
    const jwt: Jwt
    const accessLife: int
    const refreshLife: int

    constructor (cache: CacheService, jwt: Jwt, accessLife: int, refreshLife: int)
      ensures Valid()
      ensures this.cache == cache && this.jwt == jwt && this.accessLife == accessLife && this.refreshLife == refreshLife
    {
      this.cache := cache;
      this.jwt := jwt;
      this.accessLife := accessLife;
      this.refreshLife := refreshLife;
      this.tokens := new TokensService(cache, jwt);
    }

    ghost predicate Valid() {
      tokens.cache == cache && tokens.jwt == jwt
    }

    function Pair(user: Account, jtis: (string, string), at: Instants): TokenPair {
      TokenPair(jwt.sign(AccessClaims(user, jtis.0, at.signedAt, accessLife)),
                jwt.sign(RefreshClaims(user.id, jtis.1, at.signedAt, refreshLife)))
    }

    /** What minting and saving a pair for `user` leaves: the answer and the store. */
    ghost predicate Generated(store: Store, user: Account, jtis: (string, string), at: Instants, r: Result<TokenPair, AuthError>, after: Store) {
      var pair := Pair(user, jtis, at);
      var saved := SaveRefresh(jwt, store, user.id, pair.refresh, at.computedAt, at.storedAt);
      r == (if saved.Some? then Ok(pair) else Err(InternalError)) && after == saved.GetOr(store)
    }

    /**
     What the answered pair is good for. The access token's claims are the account's, it is
     accepted at every instant before its lifetime is over, counted in whole seconds from the
     signing, and at none after; so is the refresh token, for this user, once stored.
     */
    ghost predicate GoodPair(user: Account, jtis: (string, string), at: Instants, pair: TokenPair, before: Store, after: Store, lenient: bool) {
      var second := at.signedAt / 1000;
      && jwt.authentic(pair.access) && jwt.authentic(pair.refresh)
      && jwt.decode(pair.access) == Some(Claims(user.id, jtis.0, second, Some(second + accessLife), Some(user.email), Some(user.roles)))
      && jwt.decode(pair.refresh) == Some(Claims(user.id, jtis.1, second, Some(second + refreshLife), None, None))
      && ("blacklist:" + pair.access !in before ==>
            forall readAt: nat, verifyAt: nat ::
              ValidateJwt(jwt, lenient, after, pair.access, readAt, verifyAt)
              == if verifyAt < (second + accessLife) * 1000 then jwt.decode(pair.access) else None)
      && (at.computedAt <= at.storedAt ==>
            forall readAt: nat, verifyAt: nat | at.storedAt <= readAt <= verifyAt ::
              ValidateRefresh(jwt, lenient, after, user.id, pair.refresh, readAt, verifyAt)
              <==> verifyAt < (second + refreshLife) * 1000)
    }

    lemma GeneratedIsGood(store: Store, user: Account, jtis: (string, string), at: Instants, r: Result<TokenPair, AuthError>, after: Store, lenient: bool)
      requires Lawful(jwt) && Generated(store, user, jtis, at, r, after) && r.Ok?
      ensures GoodPair(user, jtis, at, r.value, store, after, lenient)
    {
      var pair := r.value;
      KeysNeverClash();
      SaveTouches(jwt, store, user.id, pair.refresh, at.computedAt, at.storedAt);
      if at.computedAt <= at.storedAt {
        SavedTokenOutlivesItself(jwt, lenient, store, user.id, pair.refresh, at.computedAt, at.storedAt);
      }
      forall readAt: nat, verifyAt: nat | "blacklist:" + pair.access !in store
        ensures ValidateJwt(jwt, lenient, after, pair.access, readAt, verifyAt)
             == if verifyAt < (at.signedAt / 1000 + accessLife) * 1000 then jwt.decode(pair.access) else None
      {
        assert BlacklistKey(pair.access) !in after;
        ValidateJwtMeaning(jwt, lenient, after, pair.access, readAt, verifyAt);
      }
    }

    /** `jtis` are the two ids drawn. On failure nothing is stored. */
    method GenerateTokens(user: Account, jtis: (string, string), at: Instants) returns (r: Result<TokenPair, AuthError>)
      requires Valid()
      modifies cache
      ensures Generated(old(cache.store), user, jtis, at, r, cache.store)
      ensures Lawful(jwt) && r.Ok? ==> GoodPair(user, jtis, at, r.value, old(cache.store), cache.store, cache.lenient)
    {
      var accessToken := jwt.sign(AccessClaims(user, jtis.0, at.signedAt, accessLife));
      var refreshToken := jwt.sign(RefreshClaims(user.id, jtis.1, at.signedAt, refreshLife));
      var ok := tokens.SaveRefreshToken(user.id, refreshToken, at.computedAt, at.storedAt);
      r := if ok then Ok(TokenPair(accessToken, refreshToken)) else Err(InternalError);
      if Lawful(jwt) && ok {
        GeneratedIsGood(old(cache.store), user, jtis, at, r, cache.store, cache.lenient);
      }
    }

    /** `account` is what checking the e-mail and password gave. */
    method Login(account: Option<Account>, jtis: (string, string), at: Instants) returns (r: Result<TokenPair, AuthError>)
      requires Valid()
      modifies cache
      ensures account.Some? && account.value.isActive ==>
                Generated(old(cache.store), account.value, jtis, at, r, cache.store)
      ensures account.None? || !account.value.isActive ==> r == Err(Unauthorized) && cache.store == old(cache.store)
      ensures r.Ok? ==> account.Some?
      ensures Lawful(jwt) && r.Ok? ==> GoodPair(account.value, jtis, at, r.value, old(cache.store), cache.store, cache.lenient)
    {
      if account.None? || !account.value.isActive {
        return Err(Unauthorized);
      }
      r := GenerateTokens(account.value, jtis, at);
    }

    /** `account` is what looking the user up gives; a missing user is an internal error here. */
    method RefreshToken(userId: string, refreshToken: string, account: Option<Account>, jtis: (string, string), at: Instants)
      returns (r: Result<TokenPair, AuthError>)
      requires Valid()
      requires account.Some? ==> account.value.id == userId
      modifies cache
      ensures var valid := ValidateRefresh(jwt, cache.lenient, old(cache.store), userId, refreshToken, at.readAt, at.verifyAt);
              if valid && account.Some? && account.value.isActive
              then Generated(old(cache.store), account.value, jtis, at, r, cache.store)
              else && cache.store == old(cache.store)
                   && r == Err(if valid && account.None? then InternalError else Unauthorized)
      ensures r.Ok? ==> account.Some?
      ensures Lawful(jwt) && r.Ok? ==> GoodPair(account.value, jtis, at, r.value, old(cache.store), cache.store, cache.lenient)
    {
      var isValid := tokens.ValidateRefreshToken(userId, refreshToken, at.readAt, at.verifyAt);
      if !isValid {
        return Err(Unauthorized);
      }
      if account.None? {
        return Err(InternalError);
      }
      if !account.value.isActive {
        return Err(Unauthorized);
      }
      r := GenerateTokens(account.value, jtis, at);
    }

    method Logout(userId: string, accessToken: string, computedAt: nat, storedAt: nat)
      requires Valid()
      modifies cache
      ensures cache.store == LogoutStore(jwt, old(cache.store), userId, accessToken, computedAt, storedAt)
    {
      var jwtPayload := jwt.decode(accessToken);
      if jwtPayload.Some? && jwtPayload.value.exp.Some? {
        var expiry := jwtPayload.value.exp.value * MS_PER_SECOND - computedAt;
        if expiry > 0 {
          var ok := cache.Set(BlacklistKey(accessToken), UserMark(userId), Some(CeilSeconds(expiry)), storedAt);
        }
      }
      tokens.RemoveRefreshToken(userId);
    }

    method ValidateJwtToken(token: string, readAt: nat, verifyAt: nat) returns (r: Option<Claims>)
      ensures r == ValidateJwt(jwt, cache.lenient, cache.store, token, readAt, verifyAt)
      ensures r.Some? <==>
                && !Marked(cache.lenient, cache.store, "blacklist:" + token, readAt)
                && jwt.authentic(token) && jwt.decode(token).Some? && Alive(jwt.decode(token).value, verifyAt)
      ensures r.Some? ==> r == jwt.decode(token)
    {
      var isBlacklisted := cache.Get(BlacklistKey(token), readAt);
      if isBlacklisted.Some? {
        return None;
      }
      return Verify(jwt, token, verifyAt);
    }
  }

  // ---------------------------------------------------------------- one call

  /** Never accepted from `since` on, if the store stays as it is. */
  ghost predicate RefusedForGood(jwt: Jwt, lenient: bool, store: Store, access: string, since: nat) {
    forall readAt: nat, verifyAt: nat | since <= readAt <= verifyAt ::
      ValidateJwt(jwt, lenient, store, access, readAt, verifyAt).None?
  }

  /** An authentic token without `exp`. */
  predicate Endless(jwt: Jwt, access: string) {
    jwt.authentic(access) && jwt.decode(access).Some? && jwt.decode(access).value.exp.None?
  }

  /**
   Logging out ends an access token for good if and only if the token is not an authentic one
   without `exp`, or an entry without deadline already stands under its key. For such an endless
   token logging out changes nothing. The refresh token is gone in every case.
   */
  lemma LogoutEndsAccess(jwt: Jwt, lenient: bool, store: Store, userId: string, access: string, computedAt: nat, storedAt: nat)
    requires computedAt <= storedAt
    ensures var after, key := LogoutStore(jwt, store, userId, access, computedAt, storedAt), BlacklistKey(access);
            && (RefusedForGood(jwt, lenient, after, access, storedAt)
                <==> !Endless(jwt, access) || (key in store && store[key].deadline.None?))
            && (Endless(jwt, access) ==>
                  forall readAt: nat, verifyAt: nat | storedAt <= readAt <= verifyAt ::
                    ValidateJwt(jwt, lenient, after, access, readAt, verifyAt)
                    == ValidateJwt(jwt, lenient, store, access, readAt, verifyAt))
            && Lookup(lenient, after, RefreshKey(userId), storedAt).None?
  {
    KeysNeverClash();
    var after, key := LogoutStore(jwt, store, userId, access, computedAt, storedAt), BlacklistKey(access);
    if Endless(jwt, access) && !(key in store && store[key].deadline.None?) {
      var late: nat := if key in store && store[key].deadline.value >= storedAt then store[key].deadline.value + 1 else storedAt;
      assert ValidateJwt(jwt, lenient, after, access, late, late).Some?;
    }
  }

  /**
   A saved refresh token stays readable for as long as it is valid: flooring the current time
   never cuts it short, and the zero TTL that stores it for good is used only when it is
   already expired. Saving fails only for a token without `exp` or more than expired.
   */
  lemma SavedTokenOutlivesItself(jwt: Jwt, lenient: bool, store: Store, userId: string, token: string, computedAt: nat, storedAt: nat)
    requires computedAt <= storedAt
    requires Lawful(jwt) && jwt.authentic(token)
    requires jwt.decode(token).Some? && jwt.decode(token).value.sub == userId && jwt.decode(token).value.exp.GetOr(0) != 0
    ensures var exp, saved := jwt.decode(token).value.exp.value, SaveRefresh(jwt, store, userId, token, computedAt, storedAt);
            && (saved.None? <==> exp < computedAt / MS_PER_SECOND)
            && (saved.Some? ==>
                  forall readAt: nat, verifyAt: nat | storedAt <= readAt <= verifyAt ::
                    ValidateRefresh(jwt, lenient, saved.value, userId, token, readAt, verifyAt)
                    <==> verifyAt < exp * MS_PER_SECOND)
  {
  }
}
