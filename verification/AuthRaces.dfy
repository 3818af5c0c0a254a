/**
 Races between rotations and logouts of one user: exactly when a token can be presented twice,
 exactly when anything is accepted after a logout, and runs in which both happen.
 */
module AuthRaces {
  import opened Prelude
  import opened AuthRuns

  predicate Touches(act: Act, user: string) {
    (act.Saved? || act.Cleared?) && act.user == user
  }

  /** From its n-th entry on the log saves and clears nothing for `user`. */
  ghost predicate Untouched(log: seq<Act>, n: nat, user: string) {
    forall m | n <= m < |log| :: !Touches(log[m], user)
  }

  lemma {:induction false} LatestUntouched(log: seq<Act>, n: nat, user: string)
    requires n <= |log| && Untouched(log, n, user)
    ensures Latest(log, user) == Latest(log[..n], user)
  {
    if n < |log| {
      assert log[..|log| - 1][..n] == log[..n];
      assert !Touches(log[|log| - 1], user);
      LatestUntouched(log[..|log| - 1], n, user);
    } else {
      assert log[..n] == log;
    }
  }

  /** A token that is current again after others were has been saved twice. */
  lemma CurrentAgain(log: seq<Act>, n: nat, user: string, token: string) returns (first: nat, second: nat)
    requires n <= |log| && !Untouched(log, n, user)
    requires Latest(log[..n], user) == Latest(log, user) == Some(token)
    ensures first < n <= second < |log| && log[first] == log[second] == Saved(user, token)
  {
    first := LatestWasSaved(log[..n], user);
    second := LatestWasSaved(log, user);
    var m :| n <= m < |log| && Touches(log[m], user);
    assert m <= second;
  }

  /** A token that was current is current later exactly when nothing was saved or cleared since. */
  lemma StillLatest(cfg: Config, tr: seq<State>, steps: seq<Step>, i: nat, j: nat, user: string, token: string)
    requires Run(cfg, tr, steps) && i <= j < |tr|
    requires Latest(tr[i].log, user) == Some(token)
    ensures Latest(tr[j].log, user) == Some(token) <==> Untouched(tr[j].log, |tr[i].log|, user)
  {
    var n, log := |tr[i].log|, tr[j].log;
    LogGrows(cfg, tr, steps, i, j);
    assert log[..n] == tr[i].log;
    if Untouched(log, n, user) {
      LatestUntouched(log, n, user);
    } else if Latest(log, user) == Some(token) {
      var first, second := CurrentAgain(log, n, user, token);
      InvHolds(cfg, tr, steps, j);
      assert false;
    }
  }

  /**
   A token that started one rotation can start another exactly as long as no rotation, login or
   logout of the user has written since (and the token has not expired).
   */
  lemma PresentedAgainIff(cfg: Config, tr: seq<State>, steps: seq<Step>, i: nat, j: nat, op: nat)
    requires Run(cfg, tr, steps) && i < |steps| && i < j < |tr| && steps[i].BeginRefresh?
    ensures var user, token := steps[i].user, steps[i].presented;
            Enabled(cfg, tr[j], BeginRefresh(op, user, token))
            <==> op !in tr[j].ops && tr[j].now < Expiry(cfg, token) && Untouched(tr[j].log, |tr[i].log|, user)
  {
    RotationNeedsLatest(cfg, tr, steps, i);
    StillLatest(cfg, tr, steps, i, j, steps[i].user, steps[i].presented);
    AcceptedIffLatestAndUnexpired(cfg, tr, steps, j, steps[i].user, steps[i].presented);
  }

  // ---------------------------------------------------------------- after a logout

  /** Step `n` stores a refresh token for `user`. */
  ghost predicate SavesAt(tr: seq<State>, steps: seq<Step>, n: nat, user: string, token: string) {
    && n < |steps| && n + 1 < |tr| && steps[n].StoreRefresh? && steps[n].op in tr[n].ops
    && tr[n].ops[steps[n].op].Saving?
    && tr[n].ops[steps[n].op].user == user && tr[n].ops[steps[n].op].token == token
    && tr[n + 1].log == tr[n].log + [Saved(user, token)]
  }

  /** The step that logged an entry. */
  lemma {:induction false} LoggedBy(cfg: Config, tr: seq<State>, steps: seq<Step>, k: nat, x: nat) returns (n: nat)
    requires Run(cfg, tr, steps) && k < |tr| && x < |tr[k].log|
    ensures n < k && |tr[n].log| == x && tr[n + 1].log == tr[n].log + [tr[k].log[x]]
  {
    LogGrows(cfg, tr, steps, k - 1, k);
    if x < |tr[k - 1].log| {
      n := LoggedBy(cfg, tr, steps, k - 1, x);
      assert tr[k].log[x] == tr[k - 1].log[x];
    } else {
      n := k - 1;
    }
  }

  /** Step `n` stores `token`, and nothing is stored or removed for `user` from then to state `k`. */
  ghost predicate LastSaved(tr: seq<State>, steps: seq<Step>, n: nat, k: nat, user: string, token: string)
    requires k < |tr|
  {
    n < k && SavesAt(tr, steps, n, user, token) && Untouched(tr[k].log, |tr[n + 1].log|, user)
  }

  lemma LatestHasSave(cfg: Config, tr: seq<State>, steps: seq<Step>, k: nat, user: string, token: string) returns (n: nat)
    requires Run(cfg, tr, steps) && k < |tr| && Latest(tr[k].log, user) == Some(token)
    ensures LastSaved(tr, steps, n, k, user, token)
  {
    var x := LatestWasSaved(tr[k].log, user);
    n := LoggedBy(cfg, tr, steps, k, x);
    assert tr[n + 1].log[x] == Saved(user, token) && steps[n].StoreRefresh?;
  }

  lemma SaveIsLatest(cfg: Config, tr: seq<State>, steps: seq<Step>, n: nat, k: nat, user: string, token: string)
    requires Run(cfg, tr, steps) && k < |tr| && LastSaved(tr, steps, n, k, user, token)
    ensures Latest(tr[k].log, user) == Some(token)
  {
    LogGrows(cfg, tr, steps, n + 1, k);
    LatestUntouched(tr[k].log, |tr[n + 1].log|, user);
    LatestAppend(tr[n].log, Saved(user, token), user);
    assert tr[k].log[..|tr[n + 1].log|] == tr[n + 1].log;
  }

  lemma SavedAfterClear(cfg: Config, tr: seq<State>, steps: seq<Step>, c: nat, n: nat, k: nat, user: string, token: string)
    requires Run(cfg, tr, steps) && c < k < |tr| && LastSaved(tr, steps, n, k, user, token)
    requires steps[c].ClearRefresh? && tr[c].ops[steps[c].op] == Clearing(user)
    ensures c < n
  {
    assert n != c;
    if n < c {
      LogGrows(cfg, tr, steps, n + 1, c);
      ClearTouches(cfg, tr, steps, c, k, user, |tr[n + 1].log|);
    }
  }

  lemma ClearTouches(cfg: Config, tr: seq<State>, steps: seq<Step>, c: nat, k: nat, user: string, m: nat)
    requires Run(cfg, tr, steps) && c < k < |tr| && m <= |tr[c].log|
    requires steps[c].ClearRefresh? && tr[c].ops[steps[c].op] == Clearing(user)
    ensures !Untouched(tr[k].log, m, user)
  {
    LogGrows(cfg, tr, steps, c + 1, k);
    assert tr[c + 1].log == tr[c].log + [Cleared(user)];
    assert Touches(tr[k].log[|tr[c].log|], user);
  }

  /**
   After a logout has removed the user's token, a token is accepted if and only if a rotation or
   login of the user has stored it AFTER the removal, nothing has been stored or removed for the
   user since, and it has not expired. Whether that can still happen is `LogoutIsFinalIff`.
   */
  lemma AcceptedAfterLogoutIff(cfg: Config, tr: seq<State>, steps: seq<Step>, c: nat, k: nat, user: string, token: string)
    requires Run(cfg, tr, steps) && c < k < |tr|
    requires steps[c].ClearRefresh? && tr[c].ops[steps[c].op] == Clearing(user)
    ensures Accepts(cfg, tr[k], user, token)
            <==> tr[k].now < Expiry(cfg, token) && exists n :: c < n && LastSaved(tr, steps, n, k, user, token)
  {
    AcceptedIffLatestAndUnexpired(cfg, tr, steps, k, user, token);
    if Latest(tr[k].log, user) == Some(token) {
      var n := LatestHasSave(cfg, tr, steps, k, user, token);
      SavedAfterClear(cfg, tr, steps, c, n, k, user, token);
    } else if exists n: nat :: c < n && LastSaved(tr, steps, n, k, user, token) {
      var n: nat :| c < n && LastSaved(tr, steps, n, k, user, token);
      SaveIsLatest(cfg, tr, steps, n, k, user, token);
    }
  }

  // ---------------------------------------------------------------- runs in which it happens

  function Last(tr: seq<State>): State
    requires tr != []
  {
    tr[|tr| - 1]
  }

  /** `tr2` goes on where `tr` stops. */
  ghost predicate Extends(cfg: Config, tr: seq<State>, steps: seq<Step>, tr2: seq<State>, steps2: seq<Step>) {
    Run(cfg, tr2, steps2) && tr <= tr2 && steps <= steps2
  }

  lemma Go(cfg: Config, tr: seq<State>, steps: seq<Step>, step: Step) returns (tr2: seq<State>, steps2: seq<Step>)
    requires Run(cfg, tr, steps) && Enabled(cfg, Last(tr), step)
    ensures Extends(cfg, tr, steps, tr2, steps2)
    ensures steps2 == steps + [step] && Last(tr2) == Apply(cfg, Last(tr), step)
  {
    tr2, steps2 := tr + [Apply(cfg, Last(tr), step)], steps + [step];
    forall k | 0 <= k < |steps2| ensures Enabled(cfg, tr2[k], steps2[k]) && tr2[k + 1] == Apply(cfg, tr2[k], steps2[k]) {
      if k < |steps| {
        assert tr2[k] == tr[k] && tr2[k + 1] == tr[k + 1] && steps2[k] == steps[k];
      }
    }
  }

  /** Two ids not drawn yet. */
  predicate Fresh(s: State, jtis: (string, string)) {
    jtis.0 !in s.jtis && jtis.1 !in s.jtis && jtis.0 != jtis.1
  }

  /** A rotation that has begun can be carried through, whatever has happened meanwhile. */
  lemma FinishRotation(cfg: Config, tr: seq<State>, steps: seq<Step>, op: nat, user: string, jtis: (string, string))
    returns (tr2: seq<State>, steps2: seq<Step>, token: string)
    requires Run(cfg, tr, steps) && cfg.refreshLife > 0
    requires op in Last(tr).ops && Last(tr).ops[op] == Rotating(user) && Fresh(Last(tr), jtis)
    ensures Extends(cfg, tr, steps, tr2, steps2)
    ensures var s, s2 := Last(tr), Last(tr2);
            && s2.log == s.log + [Saved(user, token)] && s2.now == s.now < Expiry(cfg, token)
            && s2.ops == s.ops - {op} && s2.jtis == s.jtis + {jtis.0, jtis.1}
  {
    var s := Last(tr);
    token := cfg.jwt.sign(Claimed(cfg, s, user, jtis.1));
    tr2, steps2 := Go(cfg, tr, steps, Mint(op, user, jtis.0, jtis.1));
    assert Last(tr2).ops == s.ops[op := Minted(user, token)];
    tr2, steps2 := Go(cfg, tr2, steps2, ComputeTtl(op));
    assert Last(tr2).ops == s.ops[op := Saving(user, token, cfg.refreshLife)];
    tr2, steps2 := Go(cfg, tr2, steps2, StoreRefresh(op));
  }

  lemma ReachClearing(cfg: Config, tr: seq<State>, steps: seq<Step>, op: nat, user: string, access: string)
    returns (tr2: seq<State>, steps2: seq<Step>)
    requires Run(cfg, tr, steps) && op !in Last(tr).ops
    ensures Extends(cfg, tr, steps, tr2, steps2)
    ensures var s, s2 := Last(tr), Last(tr2);
            s2.ops == s.ops[op := Clearing(user)] && s.log <= s2.log && s2.now == s.now && s2.jtis == s.jtis
  {
    tr2, steps2 := Go(cfg, tr, steps, BeginLogout(op, user, access));
    tr2, steps2 := Go(cfg, tr2, steps2, ComputeBlacklist(op));
    if Last(tr2).ops[op].Blacklisting? {
      tr2, steps2 := Go(cfg, tr2, steps2, StoreBlacklist(op));
    }
  }

  /** A whole logout fits in anywhere. */
  lemma RunLogout(cfg: Config, tr: seq<State>, steps: seq<Step>, op: nat, user: string, access: string)
    returns (tr2: seq<State>, steps2: seq<Step>)
    requires Run(cfg, tr, steps) && op !in Last(tr).ops
    ensures Extends(cfg, tr, steps, tr2, steps2)
    ensures steps2 != [] && steps2[|steps2| - 1] == ClearRefresh(op)
    ensures var s, s2 := Last(tr), Last(tr2);
            && Latest(s2.log, user) == None && s.log <= s2.log
            && s2.now == s.now && s2.ops == s.ops && s2.jtis == s.jtis
  {
    tr2, steps2 := ReachClearing(cfg, tr, steps, op, user, access);
    LatestAppend(Last(tr2).log, Cleared(user), user);
    tr2, steps2 := Go(cfg, tr2, steps2, ClearRefresh(op));
    assert Last(tr2).ops == Last(tr).ops;
  }

  /**
   Any run in which a token is accepted can go on like this: two rotations begin from it and
   both save. Both are answered with a token, and only the second one's is any good.
   */
  lemma BothRotationsSave(cfg: Config, tr: seq<State>, steps: seq<Step>, user: string, token: string,
                          p: nat, q: nat, jtisP: (string, string), jtisQ: (string, string))
    returns (tr2: seq<State>, steps2: seq<Step>, first: string, second: string)
    requires Run(cfg, tr, steps) && cfg.refreshLife > 0 && Accepts(cfg, Last(tr), user, token)
    requires p != q && p !in Last(tr).ops && q !in Last(tr).ops
    requires Fresh(Last(tr), jtisP) && Fresh(Last(tr), jtisQ) && {jtisP.0, jtisP.1} !! {jtisQ.0, jtisQ.1}
    ensures Extends(cfg, tr, steps, tr2, steps2)
    ensures steps + [BeginRefresh(p, user, token), BeginRefresh(q, user, token)] <= steps2
    ensures Last(tr2).log == Last(tr).log + [Saved(user, first), Saved(user, second)]
    ensures Accepts(cfg, Last(tr2), user, second) && !Accepts(cfg, Last(tr2), user, first)
  {
    var s := Last(tr);
    tr2, steps2 := Go(cfg, tr, steps, BeginRefresh(p, user, token));
    tr2, steps2 := Go(cfg, tr2, steps2, BeginRefresh(q, user, token));
    assert steps2 == steps + [BeginRefresh(p, user, token), BeginRefresh(q, user, token)];
    tr2, steps2, first := FinishRotation(cfg, tr2, steps2, p, user, jtisP);
    tr2, steps2, second := FinishRotation(cfg, tr2, steps2, q, user, jtisQ);
    SecondIsCurrent(cfg, tr2, steps2, s.log, user, first, second);
  }

  lemma SecondIsCurrent(cfg: Config, tr: seq<State>, steps: seq<Step>, log: seq<Act>, user: string, first: string, second: string)
    requires Run(cfg, tr, steps) && Last(tr).log == log + [Saved(user, first)] + [Saved(user, second)]
    requires Last(tr).now < Expiry(cfg, second)
    ensures Accepts(cfg, Last(tr), user, second) && !Accepts(cfg, Last(tr), user, first)
  {
    var k := |tr| - 1;
    InvHolds(cfg, tr, steps, k);
    LatestAppend(log + [Saved(user, first)], Saved(user, second), user);
    AcceptedIffLatestAndUnexpired(cfg, tr, steps, k, user, first);
    AcceptedIffLatestAndUnexpired(cfg, tr, steps, k, user, second);
    assert tr[k].log[|log|] == Saved(user, first) && tr[k].log[|log| + 1] == Saved(user, second);
    SavedOnce(cfg, tr[k], |log|, user, first);
  }

  /**
   Any run in which a token is accepted can go on like this: a rotation begins, the user logs
   out completely, and the rotation, begun before, saves a token that is accepted.
   */
  lemma RotationOutlivesLogout(cfg: Config, tr: seq<State>, steps: seq<Step>, user: string, token: string, access: string,
                               p: nat, q: nat, jtis: (string, string))
    returns (tr2: seq<State>, steps2: seq<Step>, c: nat, minted: string)
    requires Run(cfg, tr, steps) && cfg.refreshLife > 0 && Accepts(cfg, Last(tr), user, token)
    requires p != q && p !in Last(tr).ops && q !in Last(tr).ops && Fresh(Last(tr), jtis)
    ensures Extends(cfg, tr, steps, tr2, steps2)
    ensures steps + [BeginRefresh(p, user, token)] <= steps2
    ensures |steps| < c < |steps2| && steps2[c] == ClearRefresh(q) && Latest(tr2[c + 1].log, user).None?
    ensures Accepts(cfg, Last(tr2), user, minted)
  {
    tr2, steps2 := Go(cfg, tr, steps, BeginRefresh(p, user, token));
    assert steps2 == steps + [BeginRefresh(p, user, token)];
    tr2, steps2 := RunLogout(cfg, tr2, steps2, q, user, access);
    c := |steps2| - 1;
    var loggedOut := tr2;
    tr2, steps2, minted := FinishRotation(cfg, tr2, steps2, p, user, jtis);
    assert tr2[c + 1] == Last(loggedOut);
    LatestAppend(Last(loggedOut).log, Saved(user, minted), user);
    AcceptedIffLatestAndUnexpired(cfg, tr2, steps2, |tr2| - 1, user, minted);
  }

  // ---------------------------------------------------------------- exactly when a logout is final

  /** A rotation of the user that has got past its check and can still save a token worth having. */
  predicate IsUnderWay(cfg: Config, s: State, o: Op, user: string) {
    match o
    case Rotating(u) => u == user
    case Minted(u, t) => u == user && s.now < Expiry(cfg, t)
    case Saving(u, t, _) => u == user && s.now < Expiry(cfg, t)
    case _ => false
  }

  ghost predicate UnderWay(cfg: Config, s: State, user: string) {
    exists op :: op in s.ops && IsUnderWay(cfg, s, s.ops[op], user)
  }

  /** From step `n` on nobody logs in as the user: pairs are minted for rotations only. */
  ghost predicate NoLogin(tr: seq<State>, steps: seq<Step>, n: nat, user: string) {
    forall k | n <= k < |steps| && k < |tr| && steps[k].Mint? && steps[k].user == user :: steps[k].op in tr[k].ops
  }

  /** However the run goes on, without a new login no token of the user is accepted. */
  ghost predicate SessionOver(cfg: Config, tr: seq<State>, steps: seq<Step>, user: string) {
    forall tr2, steps2, token | Extends(cfg, tr, steps, tr2, steps2) && NoLogin(tr2, steps2, |steps|, user) ::
      !Accepts(cfg, Last(tr2), user, token)
  }

  /** Nothing under way, and what is current, if anything, has expired. */
  ghost predicate Over(cfg: Config, s: State, user: string) {
    && !UnderWay(cfg, s, user)
    && (Latest(s.log, user).Some? ==> Expiry(cfg, Latest(s.log, user).value) <= s.now)
  }

  lemma StepStaysIdle(cfg: Config, s: State, step: Step, user: string)
    requires Enabled(cfg, s, step) && !UnderWay(cfg, s, user)
    requires step.Mint? && step.user == user ==> step.op in s.ops
    requires step.BeginRefresh? ==> step.user != user
    ensures !UnderWay(cfg, Apply(cfg, s, step), user)
  {
    var s' := Apply(cfg, s, step);
    forall op | op in s'.ops ensures !IsUnderWay(cfg, s', s'.ops[op], user) {
      if op in s.ops {
        assert !IsUnderWay(cfg, s, s.ops[op], user);
      }
    }
  }

  lemma StepStaysExpired(cfg: Config, s: State, step: Step, user: string)
    requires Enabled(cfg, s, step) && Over(cfg, s, user)
    ensures var s' := Apply(cfg, s, step);
            Latest(s'.log, user).Some? ==> Expiry(cfg, Latest(s'.log, user).value) <= s'.now
  {
    match step {
      case StoreRefresh(op) =>
        assert !IsUnderWay(cfg, s, s.ops[op], user);
        LatestAppend(s.log, Saved(s.ops[op].user, s.ops[op].token), user);
      case StoreBlacklist(op) => LatestAppend(s.log, Revoked(s.ops[op].access), user);
      case ClearRefresh(op) => LatestAppend(s.log, Cleared(s.ops[op].user), user);
      case _ =>
    }
  }

  lemma {:induction false} StaysOver(cfg: Config, tr: seq<State>, steps: seq<Step>, n: nat, k: nat, user: string)
    requires Run(cfg, tr, steps) && n <= k < |tr| && Over(cfg, tr[n], user) && NoLogin(tr, steps, n, user)
    ensures Over(cfg, tr[k], user)
    decreases k
  {
    if n < k {
      StaysOver(cfg, tr, steps, n, k - 1, user);
      if steps[k - 1].BeginRefresh? {
        RotationNeedsLatest(cfg, tr, steps, k - 1);
        AcceptedIffLatestAndUnexpired(cfg, tr, steps, k - 1, steps[k - 1].user, steps[k - 1].presented);
        assert Enabled(cfg, tr[k - 1], steps[k - 1]);
      }
      StepStaysIdle(cfg, tr[k - 1], steps[k - 1], user);
      StepStaysExpired(cfg, tr[k - 1], steps[k - 1], user);
    }
  }

  lemma IdleIsOver(cfg: Config, tr: seq<State>, steps: seq<Step>, user: string)
    requires Run(cfg, tr, steps) && Over(cfg, Last(tr), user)
    ensures SessionOver(cfg, tr, steps, user)
  {
    forall tr2, steps2, token | Extends(cfg, tr, steps, tr2, steps2) && NoLogin(tr2, steps2, |steps|, user)
      ensures !Accepts(cfg, Last(tr2), user, token)
    {
      assert tr2[|steps|] == Last(tr);
      StaysOver(cfg, tr2, steps2, |steps|, |tr2| - 1, user);
      AcceptedIffLatestAndUnexpired(cfg, tr2, steps2, |tr2| - 1, user, token);
    }
  }

  lemma SavingSaves(cfg: Config, tr: seq<State>, steps: seq<Step>, op: nat, user: string, token: string)
    returns (tr2: seq<State>, steps2: seq<Step>)
    requires Run(cfg, tr, steps) && op in Last(tr).ops && Last(tr).now < Expiry(cfg, token)
    requires Last(tr).ops[op].Saving? && Last(tr).ops[op].user == user && Last(tr).ops[op].token == token
    ensures Extends(cfg, tr, steps, tr2, steps2) && steps2 == steps + [StoreRefresh(op)]
    ensures Accepts(cfg, Last(tr2), user, token)
  {
    InvHolds(cfg, tr, steps, |tr| - 1);
    assert OpInv(cfg, Last(tr), Last(tr).ops[op]);
    tr2, steps2 := Go(cfg, tr, steps, StoreRefresh(op));
    LatestAppend(Last(tr).log, Saved(user, token), user);
    AcceptedIffLatestAndUnexpired(cfg, tr2, steps2, |tr2| - 1, user, token);
  }

  lemma MintedSaves(cfg: Config, tr: seq<State>, steps: seq<Step>, op: nat, user: string, token: string)
    returns (tr2: seq<State>, steps2: seq<Step>)
    requires Run(cfg, tr, steps) && op in Last(tr).ops && Last(tr).now < Expiry(cfg, token)
    requires Last(tr).ops[op] == Minted(user, token)
    ensures Extends(cfg, tr, steps, tr2, steps2) && steps2 == steps + [ComputeTtl(op), StoreRefresh(op)]
    ensures Accepts(cfg, Last(tr2), user, token)
  {
    InvHolds(cfg, tr, steps, |tr| - 1);
    assert OpInv(cfg, Last(tr), Last(tr).ops[op]);
    tr2, steps2 := Go(cfg, tr, steps, ComputeTtl(op));
    tr2, steps2 := SavingSaves(cfg, tr2, steps2, op, user, token);
  }

  lemma RotatingSaves(cfg: Config, tr: seq<State>, steps: seq<Step>, op: nat, user: string, jtis: (string, string))
    returns (tr2: seq<State>, steps2: seq<Step>, token: string)
    requires Run(cfg, tr, steps) && cfg.refreshLife > 0 && Fresh(Last(tr), jtis)
    requires op in Last(tr).ops && Last(tr).ops[op] == Rotating(user)
    ensures Extends(cfg, tr, steps, tr2, steps2)
    ensures steps2 == steps + [Mint(op, user, jtis.0, jtis.1), ComputeTtl(op), StoreRefresh(op)]
    ensures Accepts(cfg, Last(tr2), user, token)
  {
    token := cfg.jwt.sign(Claimed(cfg, Last(tr), user, jtis.1));
    tr2, steps2 := Go(cfg, tr, steps, Mint(op, user, jtis.0, jtis.1));
    tr2, steps2 := MintedSaves(cfg, tr2, steps2, op, user, token);
  }

  lemma UnderWayIsNotOver(cfg: Config, tr: seq<State>, steps: seq<Step>, user: string, jtis: (string, string))
    requires Run(cfg, tr, steps) && cfg.refreshLife > 0 && Fresh(Last(tr), jtis)
    requires UnderWay(cfg, Last(tr), user)
    ensures !SessionOver(cfg, tr, steps, user)
  {
    var op :| op in Last(tr).ops && IsUnderWay(cfg, Last(tr), Last(tr).ops[op], user);
    var tr2, steps2, token;
    match Last(tr).ops[op] {
      case Rotating(_) => tr2, steps2, token := RotatingSaves(cfg, tr, steps, op, user, jtis);
      case Minted(_, t) =>
        token := t;
        tr2, steps2 := MintedSaves(cfg, tr, steps, op, user, t);
      case Saving(_, t, _) =>
        token := t;
        tr2, steps2 := SavingSaves(cfg, tr, steps, op, user, t);
    }
    assert tr2[|steps|] == Last(tr);
    assert NoLogin(tr2, steps2, |steps|, user);
    assert Extends(cfg, tr, steps, tr2, steps2) && Accepts(cfg, Last(tr2), user, token);
  }

  /** In any state: the session is over if and only if nothing is under way and nothing current is good. */
  lemma SessionOverIff(cfg: Config, tr: seq<State>, steps: seq<Step>, user: string, jtis: (string, string))
    requires Run(cfg, tr, steps) && cfg.refreshLife > 0 && Fresh(Last(tr), jtis)
    ensures SessionOver(cfg, tr, steps, user) <==> Over(cfg, Last(tr), user)
  {
    if UnderWay(cfg, Last(tr), user) {
      UnderWayIsNotOver(cfg, tr, steps, user, jtis);
    } else if Over(cfg, Last(tr), user) {
      IdleIsOver(cfg, tr, steps, user);
    } else {
      var token := Latest(Last(tr).log, user).value;
      AcceptedIffLatestAndUnexpired(cfg, tr, steps, |tr| - 1, user, token);
      assert Extends(cfg, tr, steps, tr, steps) && NoLogin(tr, steps, |steps|, user);
      assert Accepts(cfg, Last(tr), user, token);
    }
  }

  /**
   Once a logout has removed the user's token, the session is over for good (until somebody logs
   in as the user) if and only if no rotation or login of the user is under way at that moment:
   none that is past its check and unminted, and none holding a token that has not expired.
   */
  lemma LogoutIsFinalIff(cfg: Config, tr: seq<State>, steps: seq<Step>, user: string, jtis: (string, string))
    requires Run(cfg, tr, steps) && cfg.refreshLife > 0 && Fresh(Last(tr), jtis)
    requires Latest(Last(tr).log, user).None?
    ensures SessionOver(cfg, tr, steps, user) <==> !UnderWay(cfg, Last(tr), user)
  {
    SessionOverIff(cfg, tr, steps, user, jtis);
  }

  /** Time alone ends every session: any run can go on so that a token accepted now no longer is. */
  lemma WaitingEndsIt(cfg: Config, tr: seq<State>, steps: seq<Step>, user: string, token: string)
    returns (tr2: seq<State>, steps2: seq<Step>)
    requires Run(cfg, tr, steps) && Accepts(cfg, Last(tr), user, token)
    ensures Extends(cfg, tr, steps, tr2, steps2) && |steps2| == |steps| + 1
    ensures Last(tr2).log == Last(tr).log && Last(tr2).store == Last(tr).store
    ensures !Accepts(cfg, Last(tr2), user, token)
  {
    AcceptedIffLatestAndUnexpired(cfg, tr, steps, |tr| - 1, user, token);
    tr2, steps2 := Go(cfg, tr, steps, Tick(Expiry(cfg, token) - Last(tr).now));
    AcceptedIffLatestAndUnexpired(cfg, tr2, steps2, |tr2| - 1, user, token);
  }
}
