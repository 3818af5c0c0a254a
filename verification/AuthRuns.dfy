/**
 Whole runs of the auth service: logins, rotations and logouts of any number of users, each
 split at its awaits and interleaved arbitrarily, over the TTL cache and a clock.
 Assumed: one clock, no eviction before a deadline, token ids (`jti`) never drawn twice.
 */
module AuthRuns {
  import opened Prelude
  import opened Cache
  import opened Auth

  datatype Config = Config(jwt: Jwt, lenient: bool, refreshLife: int)

  /** A call in progress, waiting at one of its awaits. */
  datatype Op =
    | Rotating(user: string)                            // refresh token checked, nothing minted yet
    | Minted(user: string, token: string)               // pair signed, TTL not computed yet
    | Saving(user: string, token: string, ttl: int)     // SET of the refresh token under way
    | Leaving(user: string, access: string)             // logout begun
    | Blacklisting(user: string, access: string, ttl: int)
    | Clearing(user: string)                            // DEL of the refresh token under way

  /** What has happened to the cache, in order. */
  datatype Act = Saved(user: string, token: string) | Cleared(user: string) | Revoked(token: string)

  datatype State = State(
    now: nat,
    store: Store,
    ops: map<nat, Op>,
    jtis: set<string>,
    log: seq<Act>)

  datatype Step =
    | Tick(ms: nat)
    | BeginRefresh(op: nat, user: string, presented: string)
    | Mint(op: nat, user: string, accessJti: string, refreshJti: string)
    | ComputeTtl(op: nat)
    | StoreRefresh(op: nat)
    | BeginLogout(op: nat, user: string, access: string)
    | ComputeBlacklist(op: nat)
    | StoreBlacklist(op: nat)
    | ClearRefresh(op: nat)
    | DropUserCache(suffix: string)                     // role upkeep deletes `user:...` keys

  ghost predicate Enabled(cfg: Config, s: State, step: Step) {
    match step
    case Tick(_) => true
    case BeginRefresh(op, user, presented) =>
      op !in s.ops && ValidateRefresh(cfg.jwt, cfg.lenient, s.store, user, presented, s.now, s.now)
    case Mint(op, user, a, r) =>
      // after a login or registration, or after a checked refresh
      (op !in s.ops || s.ops[op] == Rotating(user)) && a !in s.jtis && r !in s.jtis && a != r
    case ComputeTtl(op) => op in s.ops && s.ops[op].Minted?
    case StoreRefresh(op) => op in s.ops && s.ops[op].Saving?
    case BeginLogout(op, _, _) => op !in s.ops
    case ComputeBlacklist(op) => op in s.ops && s.ops[op].Leaving?
    case StoreBlacklist(op) => op in s.ops && s.ops[op].Blacklisting?
    case ClearRefresh(op) => op in s.ops && s.ops[op].Clearing?
    case DropUserCache(_) => true
  }

  function Claimed(cfg: Config, s: State, user: string, jti: string): Claims {
    RefreshClaims(user, jti, s.now, cfg.refreshLife)
  }

  ghost function Apply(cfg: Config, s: State, step: Step): State
    requires Enabled(cfg, s, step)
  {
    match step
    case Tick(ms) => s.(now := s.now + ms)
    case BeginRefresh(op, user, _) => s.(ops := s.ops[op := Rotating(user)])
    case Mint(op, user, a, r) =>
      s.(ops := s.ops[op := Minted(user, cfg.jwt.sign(Claimed(cfg, s, user, r)))], jtis := s.jtis + {a, r})
    case ComputeTtl(op) =>
      var o := s.ops[op];
      var ttl := RefreshTtl(cfg.jwt, o.token, s.now);
      s.(ops := if ttl.None? then s.ops - {op} else s.ops[op := Saving(o.user, o.token, ttl.value)])
    case StoreRefresh(op) =>
      var o := s.ops[op];
      var put := Put(s.store, RefreshKey(o.user), TokenText(o.token), Some(o.ttl), s.now);
      if put.None? then s.(ops := s.ops - {op})
      else s.(store := put.value, ops := s.ops - {op}, log := s.log + [Saved(o.user, o.token)])
    case BeginLogout(op, user, access) => s.(ops := s.ops[op := Leaving(user, access)])
    case ComputeBlacklist(op) =>
      var o := s.ops[op];
      var ttl := BlacklistTtl(cfg.jwt, o.access, s.now);
      s.(ops := s.ops[op := if ttl.None? then Clearing(o.user) else Blacklisting(o.user, o.access, ttl.value)])
    case StoreBlacklist(op) =>
      var o := s.ops[op];
      s.(store := Put(s.store, BlacklistKey(o.access), UserMark(o.user), Some(o.ttl), s.now).GetOr(s.store),
         ops := s.ops[op := Clearing(o.user)],
         log := s.log + [Revoked(o.access)])
    case ClearRefresh(op) =>
      var o := s.ops[op];
      s.(store := s.store - {RefreshKey(o.user)}, ops := s.ops - {op}, log := s.log + [Cleared(o.user)])
    case DropUserCache(suffix) => s.(store := s.store - {"user:" + suffix})
  }

  ghost predicate Init(s: State) {
    s.store == map[] && s.ops == map[] && s.log == []
  }

  /** `tr[k]` is the state after `k` of the steps. */
  ghost predicate Run(cfg: Config, tr: seq<State>, steps: seq<Step>) {
    && |tr| == |steps| + 1
    && Lawful(cfg.jwt)
    && Init(tr[0])
    && forall k | 0 <= k < |steps| :: Enabled(cfg, tr[k], steps[k]) && tr[k + 1] == Apply(cfg, tr[k], steps[k])
  }

  // ---------------------------------------------------------------- the timeless specification

  /** The last token saved for `user` with no later logout, clocks and deadlines aside. */
  function Latest(log: seq<Act>, user: string): Option<string> {
    if log == [] then None
    else
      match log[|log| - 1]
      case Saved(u, t) => if u == user then Some(t) else Latest(log[..|log| - 1], user)
      case Cleared(u) => if u == user then None else Latest(log[..|log| - 1], user)
      case Revoked(_) => Latest(log[..|log| - 1], user)
  }

  ghost predicate Accepts(cfg: Config, s: State, user: string, token: string) {
    ValidateRefresh(cfg.jwt, cfg.lenient, s.store, user, token, s.now, s.now)
  }

  // ---------------------------------------------------------------- the invariant

  /** A refresh token of ours for `user`, with a usable `exp` and an id already drawn. */
  ghost predicate Issued(cfg: Config, s: State, user: string, token: string) {
    var c := cfg.jwt.decode(token);
    cfg.jwt.authentic(token) && c.Some? && c.value.sub == user && c.value.exp.Some? && c.value.jti in s.jtis
  }

  function Expiry(cfg: Config, token: string): int {
    var c := cfg.jwt.decode(token);
    if c.Some? then c.value.exp.GetOr(0) * MS_PER_SECOND else 0
  }

  /** An entry that is readable at least until `ms`. */
  predicate Lasts(e: Entry, ms: int) {
    e.deadline.None? || e.deadline.value >= ms
  }

  ghost predicate StoredOk(cfg: Config, s: State, user: string) {
    match Latest(s.log, user)
    case None => RefreshKey(user) !in s.store
    case Some(t) =>
      && Issued(cfg, s, user, t)
      && RefreshKey(user) in s.store
      && s.store[RefreshKey(user)].value == TokenText(t)
      && Lasts(s.store[RefreshKey(user)], Expiry(cfg, t))
  }

  ghost predicate StoreInv(cfg: Config, s: State) {
    forall user :: StoredOk(cfg, s, user)
  }

  ghost predicate BlacklistInv(cfg: Config, s: State) {
    forall i | 0 <= i < |s.log| && s.log[i].Revoked? ::
      && cfg.jwt.decode(s.log[i].token).Some?
      && cfg.jwt.decode(s.log[i].token).value.exp.Some?
      && BlacklistKey(s.log[i].token) in s.store
      && Lasts(s.store[BlacklistKey(s.log[i].token)], Expiry(cfg, s.log[i].token))
  }

  /** A refresh token on its way to the cache. */
  predicate Carries(o: Op, token: string) {
    (o.Minted? || o.Saving?) && o.token == token
  }

  ghost predicate OpInv(cfg: Config, s: State, o: Op) {
    match o
    case Minted(user, token) => Issued(cfg, s, user, token)
    case Saving(user, token, ttl) => Issued(cfg, s, user, token) && ttl * MS_PER_SECOND + s.now >= Expiry(cfg, token)
    case Blacklisting(_, access, ttl) =>
      && cfg.jwt.decode(access).Some? && cfg.jwt.decode(access).value.exp.Some?
      && ttl > 0 && ttl * MS_PER_SECOND + s.now >= Expiry(cfg, access)
    case _ => true
  }

  /** Every refresh token reaches the cache at most once. */
  ghost predicate FreshInv(cfg: Config, s: State) {
    && (forall i | 0 <= i < |s.log| && s.log[i].Saved? :: Issued(cfg, s, s.log[i].user, s.log[i].token))
    && (forall i, j | 0 <= i < j < |s.log| && s.log[i].Saved? && s.log[j].Saved? :: s.log[i].token != s.log[j].token)
    && (forall p, i | p in s.ops && 0 <= i < |s.log| && s.log[i].Saved? :: !Carries(s.ops[p], s.log[i].token))
    && (forall p, q, t | p in s.ops && q in s.ops && Carries(s.ops[p], t) && Carries(s.ops[q], t) :: p == q)
  }

  ghost predicate Inv(cfg: Config, s: State) {
    && StoreInv(cfg, s)
    && BlacklistInv(cfg, s)
    && (forall p | p in s.ops :: OpInv(cfg, s, s.ops[p]))
    && FreshInv(cfg, s)
  }

  lemma LatestAppend(log: seq<Act>, act: Act, user: string)
    ensures Latest(log + [act], user)
         == match act
            case Saved(u, t) => if u == user then Some(t) else Latest(log, user)
            case Cleared(u) => if u == user then None else Latest(log, user)
            case Revoked(_) => Latest(log, user)
  {
    assert (log + [act])[..|log|] == log;
  }

  /** Steps that leave the log alone leave the refresh keys alone. */
  lemma QuietStored(cfg: Config, s: State, step: Step, user: string)
    requires Enabled(cfg, s, step) && StoredOk(cfg, s, user)
    requires !step.StoreRefresh? && !step.StoreBlacklist? && !step.ClearRefresh?
    ensures StoredOk(cfg, Apply(cfg, s, step), user)
  {
    KeysNeverClash();
  }

  lemma LoggedStored(cfg: Config, s: State, step: Step, user: string)
    requires Inv(cfg, s) && Enabled(cfg, s, step)
    requires step.StoreRefresh? || step.StoreBlacklist? || step.ClearRefresh?
    ensures StoredOk(cfg, Apply(cfg, s, step), user)
  {
    KeysNeverClash();
    var s' := Apply(cfg, s, step);
    assert StoredOk(cfg, s, user);
    assert OpInv(cfg, s, s.ops[step.op]);
    match step {
      case StoreRefresh(op) => LatestAppend(s.log, Saved(s.ops[op].user, s.ops[op].token), user);
      case StoreBlacklist(op) => LatestAppend(s.log, Revoked(s.ops[op].access), user);
      case ClearRefresh(op) => LatestAppend(s.log, Cleared(s.ops[op].user), user);
    }
  }

  lemma StepStore(cfg: Config, s: State, step: Step)
    requires Lawful(cfg.jwt) && Inv(cfg, s) && Enabled(cfg, s, step)
    ensures StoreInv(cfg, Apply(cfg, s, step))
  {
    forall user ensures StoredOk(cfg, Apply(cfg, s, step), user) {
      assert StoredOk(cfg, s, user);
      if step.StoreRefresh? || step.StoreBlacklist? || step.ClearRefresh? {
        LoggedStored(cfg, s, step, user);
      } else {
        QuietStored(cfg, s, step, user);
      }
    }
  }

  lemma StepBlacklist(cfg: Config, s: State, step: Step)
    requires Lawful(cfg.jwt) && Inv(cfg, s) && Enabled(cfg, s, step)
    ensures BlacklistInv(cfg, Apply(cfg, s, step))
  {
    KeysNeverClash();
  }

  lemma OpStays(cfg: Config, s: State, step: Step, o: Op)
    requires Enabled(cfg, s, step) && OpInv(cfg, s, o)
    ensures OpInv(cfg, Apply(cfg, s, step), o)
  {
    var s' := Apply(cfg, s, step);
    assert s'.now >= s.now && s.jtis <= s'.jtis;
  }

  lemma NewOp(cfg: Config, s: State, step: Step, p: nat)
    requires Lawful(cfg.jwt) && Enabled(cfg, s, step)
    requires p in s.ops ==> OpInv(cfg, s, s.ops[p])
    requires p in Apply(cfg, s, step).ops && (p !in s.ops || Apply(cfg, s, step).ops[p] != s.ops[p])
    ensures OpInv(cfg, Apply(cfg, s, step), Apply(cfg, s, step).ops[p])
  {}

  lemma StepOps(cfg: Config, s: State, step: Step)
    requires Lawful(cfg.jwt) && Inv(cfg, s) && Enabled(cfg, s, step)
    ensures var s' := Apply(cfg, s, step); forall p | p in s'.ops :: OpInv(cfg, s', s'.ops[p])
  {
    var s' := Apply(cfg, s, step);
    forall p | p in s'.ops ensures OpInv(cfg, s', s'.ops[p]) {
      if p in s.ops && s'.ops[p] == s.ops[p] {
        OpStays(cfg, s, step, s.ops[p]);
      } else {
        NewOp(cfg, s, step, p);
      }
    }
  }

  /** Whatever carries a token afterwards carried it before, unless it has just been minted. */
  lemma CarriedBefore(cfg: Config, s: State, step: Step, p: nat, t: string)
    requires Enabled(cfg, s, step)
    requires p in Apply(cfg, s, step).ops && Carries(Apply(cfg, s, step).ops[p], t)
    ensures || (p in s.ops && Carries(s.ops[p], t))
            || (step.Mint? && p == step.op && t == cfg.jwt.sign(Claimed(cfg, s, step.user, step.refreshJti)))
  {}

  /** A token just minted is none of those known so far. */
  lemma MintedIsNew(cfg: Config, s: State, user: string, jti: string)
    requires Lawful(cfg.jwt) && Inv(cfg, s) && jti !in s.jtis
    ensures var t := cfg.jwt.sign(Claimed(cfg, s, user, jti));
            && (forall p | p in s.ops :: !Carries(s.ops[p], t))
            && (forall i | 0 <= i < |s.log| && s.log[i].Saved? :: s.log[i].token != t)
  {
    var t := cfg.jwt.sign(Claimed(cfg, s, user, jti));
    assert cfg.jwt.decode(t).value.jti == jti;
    forall p | p in s.ops ensures !Carries(s.ops[p], t) {
      assert OpInv(cfg, s, s.ops[p]);
    }
  }

  lemma StepFreshLog(cfg: Config, s: State, step: Step)
    requires Inv(cfg, s) && Enabled(cfg, s, step)
    ensures var s' := Apply(cfg, s, step);
            && s.jtis <= s'.jtis
            && (s'.log == s.log
                || (|s'.log| == |s.log| + 1 && s.log <= s'.log && !s'.log[|s.log|].Saved?)
                || (step.StoreRefresh? && s'.log == s.log + [Saved(s.ops[step.op].user, s.ops[step.op].token)]
                    && s'.ops == s.ops - {step.op}))
  {}

  lemma StepFresh(cfg: Config, s: State, step: Step)
    requires Lawful(cfg.jwt) && Inv(cfg, s) && Enabled(cfg, s, step)
    ensures FreshInv(cfg, Apply(cfg, s, step))
  {
    var s' := Apply(cfg, s, step);
    StepFreshLog(cfg, s, step);
    if step.Mint? {
      MintedIsNew(cfg, s, step.user, step.refreshJti);
    }
    if step.StoreRefresh? {
      assert OpInv(cfg, s, s.ops[step.op]) && Carries(s.ops[step.op], s.ops[step.op].token);
    }
    forall p, i | p in s'.ops && 0 <= i < |s'.log| && s'.log[i].Saved? ensures !Carries(s'.ops[p], s'.log[i].token) {
      if Carries(s'.ops[p], s'.log[i].token) {
        CarriedBefore(cfg, s, step, p, s'.log[i].token);
        assert false;
      }
    }
    forall p, q, t | p in s'.ops && q in s'.ops && Carries(s'.ops[p], t) && Carries(s'.ops[q], t) ensures p == q {
      CarriedBefore(cfg, s, step, p, t);
      CarriedBefore(cfg, s, step, q, t);
    }
  }

  lemma {:induction false} InvHolds(cfg: Config, tr: seq<State>, steps: seq<Step>, k: nat)
    requires Run(cfg, tr, steps) && k < |tr|
    ensures Inv(cfg, tr[k])
  {
    if k > 0 {
      InvHolds(cfg, tr, steps, k - 1);
      StepStore(cfg, tr[k - 1], steps[k - 1]);
      StepBlacklist(cfg, tr[k - 1], steps[k - 1]);
      StepOps(cfg, tr[k - 1], steps[k - 1]);
      StepFresh(cfg, tr[k - 1], steps[k - 1]);
    }
  }

  // ---------------------------------------------------------------- main results

  /**
   The cache with expiring keys agrees with the timeless specification: in every reachable
   state a refresh token is accepted exactly when it is the last one saved for the user, with
   no logout since, and its `exp` has not come.
   */
  lemma AcceptedIffLatestAndUnexpired(cfg: Config, tr: seq<State>, steps: seq<Step>, k: nat, user: string, token: string)
    requires Run(cfg, tr, steps) && k < |tr|
    ensures Accepts(cfg, tr[k], user, token)
            <==> Latest(tr[k].log, user) == Some(token) && tr[k].now < Expiry(cfg, token)
  {
    InvHolds(cfg, tr, steps, k);
    assert StoredOk(cfg, tr[k], user);
  }

  /** So at most one refresh token per user is accepted at any moment. */
  lemma AtMostOneAccepted(cfg: Config, tr: seq<State>, steps: seq<Step>, k: nat, user: string, a: string, b: string)
    requires Run(cfg, tr, steps) && k < |tr|
    requires Accepts(cfg, tr[k], user, a) && Accepts(cfg, tr[k], user, b)
    ensures a == b
  {
    AcceptedIffLatestAndUnexpired(cfg, tr, steps, k, user, a);
    AcceptedIffLatestAndUnexpired(cfg, tr, steps, k, user, b);
  }

  lemma {:induction false} LogGrows(cfg: Config, tr: seq<State>, steps: seq<Step>, i: nat, k: nat)
    requires Run(cfg, tr, steps) && i <= k < |tr|
    ensures tr[i].log <= tr[k].log
    ensures tr[i].now <= tr[k].now
    decreases k
  {
    if i < k {
      LogGrows(cfg, tr, steps, i, k - 1);
    }
  }

  lemma {:induction false} LatestWasSaved(log: seq<Act>, user: string) returns (i: nat)
    requires Latest(log, user).Some?
    ensures i < |log| && log[i] == Saved(user, Latest(log, user).value)
    ensures forall j | i < j < |log| :: log[j] != Cleared(user) && !(log[j].Saved? && log[j].user == user)
  {
    i := |log| - 1;
    if log[i] != Saved(user, Latest(log, user).value) || !log[i].Saved? {
      i := LatestWasSaved(log[..i], user);
    }
  }

  /** Once displaced or cleared, a token that is not saved again stays so. */
  lemma {:induction false} NeverLatestAgain(log: seq<Act>, n: nat, user: string, token: string)
    requires n <= |log|
    requires Latest(log[..n], user) != Some(token)
    requires forall j | n <= j < |log| :: log[j] != Saved(user, token)
    ensures Latest(log, user) != Some(token)
  {
    if n < |log| {
      assert log[..|log| - 1][..n] == log[..n];
      NeverLatestAgain(log[..|log| - 1], n, user, token);
    } else {
      assert log[..n] == log;
    }
  }

  /**
   A refresh token that was current and then was displaced by a rotation or removed by a
   logout is never accepted again, for any user, in any later state.
   */
  lemma DisplacedNeverAccepted(cfg: Config, tr: seq<State>, steps: seq<Step>, i: nat, j: nat, k: nat, user: string, token: string, other: string)
    requires Run(cfg, tr, steps) && i <= j <= k < |tr|
    requires Latest(tr[i].log, user) == Some(token)
    requires Latest(tr[j].log, user) != Some(token)
    ensures !Accepts(cfg, tr[k], other, token)
  {
    LogGrows(cfg, tr, steps, i, j);
    LogGrows(cfg, tr, steps, j, k);
    InvHolds(cfg, tr, steps, k);
    var log := tr[k].log;
    var n := |tr[j].log|;
    assert log[..n] == tr[j].log;
    var at := LatestWasSaved(tr[i].log, user);
    assert log[at] == Saved(user, token);
    SavedOnce(cfg, tr[k], at, user, token);
    NeverLatestAgain(log, n, user, token);
    if Latest(log, other) == Some(token) {
      LatestIsForItsUser(cfg, tr[k], at, user, token, other);
    }
    AcceptedIffLatestAndUnexpired(cfg, tr, steps, k, other, token);
  }

  lemma SavedOnce(cfg: Config, s: State, at: nat, user: string, token: string)
    requires Inv(cfg, s) && at < |s.log| && s.log[at] == Saved(user, token)
    ensures forall m | at < m < |s.log| :: s.log[m] != Saved(user, token)
  {
    forall m | at < m < |s.log| ensures s.log[m] != Saved(user, token) {
      assert s.log[at].token == token;
    }
  }

  /** A token saved for one user is current for no other. */
  lemma LatestIsForItsUser(cfg: Config, s: State, at: nat, user: string, token: string, other: string)
    requires Inv(cfg, s) && at < |s.log| && s.log[at] == Saved(user, token)
    requires Latest(s.log, other) == Some(token)
    ensures other == user
  {
    assert Issued(cfg, s, s.log[at].user, s.log[at].token);
    assert StoredOk(cfg, s, other);
  }

  /**
   Once a logout's blacklist entry is written, the access token is refused at every later
   instant of every run, whatever else happens: other logouts may overwrite the entry, but
   only with one that also outlives the token.
   */
  lemma RevokedNeverAccepted(cfg: Config, tr: seq<State>, steps: seq<Step>, i: nat, k: nat, token: string, verifyAt: nat)
    requires Run(cfg, tr, steps) && i <= k < |tr|
    requires Revoked(token) in tr[i].log
    requires tr[k].now <= verifyAt
    ensures ValidateJwt(cfg.jwt, cfg.lenient, tr[k].store, token, tr[k].now, verifyAt).None?
  {
    LogGrows(cfg, tr, steps, i, k);
    InvHolds(cfg, tr, steps, k);
    var n :| 0 <= n < |tr[i].log| && tr[i].log[n] == Revoked(token);
    assert tr[k].log[n] == Revoked(token);
  }

  /** A rotation can only start from the token that is current when it is checked. */
  lemma RotationNeedsLatest(cfg: Config, tr: seq<State>, steps: seq<Step>, k: nat)
    requires Run(cfg, tr, steps) && k < |steps| && steps[k].BeginRefresh?
    ensures Latest(tr[k].log, steps[k].user) == Some(steps[k].presented)
  {
    assert Enabled(cfg, tr[k], steps[k]);
    AcceptedIffLatestAndUnexpired(cfg, tr, steps, k, steps[k].user, steps[k].presented);
  }

  /** Nothing stands on the blacklist but what a logout has put there. */
  ghost predicate OnlyRevokedMarked(s: State) {
    forall token :: BlacklistKey(token) in s.store ==> Revoked(token) in s.log
  }

  lemma StepMarks(cfg: Config, s: State, step: Step)
    requires Enabled(cfg, s, step) && OnlyRevokedMarked(s)
    ensures OnlyRevokedMarked(Apply(cfg, s, step))
  {
    KeysNeverClash();
    var s' := Apply(cfg, s, step);
    forall token | BlacklistKey(token) in s'.store ensures Revoked(token) in s'.log {
      if BlacklistKey(token) in s.store {
        var n :| 0 <= n < |s.log| && s.log[n] == Revoked(token);
        assert s'.log[n] == Revoked(token);
      } else {
        assert s'.log[|s.log|] == Revoked(token);
      }
    }
  }

  lemma {:induction false} MarksHold(cfg: Config, tr: seq<State>, steps: seq<Step>, k: nat)
    requires Run(cfg, tr, steps) && k < |tr|
    ensures OnlyRevokedMarked(tr[k])
  {
    if k > 0 {
      MarksHold(cfg, tr, steps, k - 1);
      StepMarks(cfg, tr[k - 1], steps[k - 1]);
    }
  }

  /**
   The blacklist too agrees with a specification that knows no clock: in every reachable state an
   access token is accepted exactly when it is authentic, before its `exp` if it has one, and no
   logout of THIS token has written its entry. The answer is then the token's claims.
   */
  lemma AccessAcceptedIff(cfg: Config, tr: seq<State>, steps: seq<Step>, k: nat, token: string, verifyAt: nat)
    requires Run(cfg, tr, steps) && k < |tr| && tr[k].now <= verifyAt
    ensures var r, c := ValidateJwt(cfg.jwt, cfg.lenient, tr[k].store, token, tr[k].now, verifyAt), cfg.jwt.decode(token);
            && (r.Some? <==>
                  && cfg.jwt.authentic(token) && c.Some? && (c.value.exp.Some? ==> verifyAt < c.value.exp.value * 1000)
                  && Revoked(token) !in tr[k].log)
            && (r.Some? ==> r == c)
  {
    MarksHold(cfg, tr, steps, k);
    ValidateJwtMeaning(cfg.jwt, cfg.lenient, tr[k].store, token, tr[k].now, verifyAt);
    if Revoked(token) in tr[k].log {
      RevokedNeverAccepted(cfg, tr, steps, k, k, token, verifyAt);
    } else {
      assert BlacklistKey(token) !in tr[k].store;
    }
  }

  // ---------------------------------------------------------------- steps and services

  ghost function Then(cfg: Config, s: State, step: Step, wait: nat): State
    requires Enabled(cfg, s, step)
  {
    Apply(cfg, s, step).(now := s.now + wait)
  }

  /** A login's steps, undisturbed but for the clock, leave what the service's calls leave. */
  lemma LoginStepsAreSaveRefresh(cfg: Config, s: State, op: nat, user: string, jtis: (string, string), waits: (nat, nat))
    requires Enabled(cfg, s, Mint(op, user, jtis.0, jtis.1))
    ensures var token := cfg.jwt.sign(Claimed(cfg, s, user, jtis.1));
            var s1 := Then(cfg, s, Mint(op, user, jtis.0, jtis.1), waits.0);
            var s2 := Then(cfg, s1, ComputeTtl(op), waits.1);
            var s3 := if op in s2.ops then Apply(cfg, s2, StoreRefresh(op)) else s2;
            var saved := SaveRefresh(cfg.jwt, s.store, user, token, s1.now, s2.now);
            && s3.store == saved.GetOr(s.store)
            && s3.log == s.log + (if saved.Some? then [Saved(user, token)] else [])
  {}

  /** Likewise for a logout, whether or not there is anything to blacklist. */
  lemma LogoutStepsAreLogoutStore(cfg: Config, s: State, op: nat, user: string, access: string, waits: (nat, nat))
    requires op !in s.ops
    ensures var s1 := Then(cfg, s, BeginLogout(op, user, access), waits.0);
            var s2 := Then(cfg, s1, ComputeBlacklist(op), waits.1);
            var s3 := if s2.ops[op].Blacklisting? then Apply(cfg, s2, StoreBlacklist(op)) else s2;
            && Enabled(cfg, s3, ClearRefresh(op))
            && Apply(cfg, s3, ClearRefresh(op)).store == LogoutStore(cfg.jwt, s.store, user, access, s1.now, s2.now)
  {}
}
