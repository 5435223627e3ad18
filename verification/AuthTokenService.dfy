/** The requests of auth.service.ts that issue and consume refresh tokens, updating Redis in place. */
module AuthTokenService {
  import opened Wrappers
  import opened AuthTokens

  datatype AuthError =
    | RefreshTokenInvalid | RefreshTokenRevoked | CompanyRefreshTokenInvalid | UserNotFoundOrInactive
    | InvalidCredentials | ScopeRevoked
    | CompanyNotActive | UserNotFound | UserNotInCompany | CompanySessionRevoked | GlobalSessionExpired | Unavailable

  datatype Lookup = Found | Missing | Unreachable

  /** What the credential table, user-service and org-service answer about a user during one request. */
  datatype Standing = Standing(credentialActive: bool, directory: Lookup, companies: set<string>, superAdmin: bool,
                               companyStatus: Option<bool>, permissionsReadable: bool)

  /** A refresh token with its id. */
  datatype Signed = Signed(jti: nat, token: Token)

  /** user-service knows the user and leaves them some scope. */
  function ScopeError(st: Standing): Option<AuthError> {
    if st.directory.Missing? then Some(InvalidCredentials)
    else if st.directory.Unreachable? then Some(Unavailable)
    else if !st.superAdmin && st.companies == {} then Some(ScopeRevoked)
    else None
  }

  function CompanyError(st: Standing): Option<AuthError> {
    match st.companyStatus
    case None => Some(Unavailable)
    case Some(active) => if active then None else Some(CompanyNotActive)
  }

  /** The checks of refresh after the token is consumed. */
  function RefreshError(company: string, st: Standing): Option<AuthError> {
    if !st.credentialActive then Some(UserNotFoundOrInactive)
    else if ScopeError(st).Some? then ScopeError(st)
    else if company == "" then None
    else if company !in st.companies then Some(ScopeRevoked)
    else if CompanyError(st).Some? then CompanyError(st)
    else if !st.permissionsReadable then Some(Unavailable)
    else None
  }

  /** user-service knows the user, who is a super-admin or belongs to some company. */
  ghost predicate HasScope(st: Standing) { st.directory.Found? && (st.superAdmin || st.companies != {}) }

  /** The user belongs to the company, which org-service reports as active, with readable permissions. */
  ghost predicate InCompany(st: Standing, company: string) {
    company in st.companies && st.companyStatus == Some(true) && st.permissionsReadable
  }

  /** Some answer that was needed for the company could not be had. */
  ghost predicate CompanyUnreadable(st: Standing, company: string) {
    && company in st.companies
    && (st.companyStatus.None? || (st.companyStatus == Some(true) && !st.permissionsReadable))
  }

  /** Why a switch to the company is refused; the checks come in this order. */
  ghost predicate SwitchRefused(company: string, st: Standing, e: AuthError) {
    if st.directory.Missing? then e == UserNotFound
    else if st.directory.Unreachable? then e == Unavailable
    else if company !in st.companies then e == UserNotInCompany
    else if st.companyStatus == Some(false) then e == CompanyNotActive
    else if st.companyStatus.None? then e == Unavailable
    else if !st.credentialActive then e == UserNotFoundOrInactive
    else e == Unavailable && !st.permissionsReadable
  }

  /** Why a spent token is not exchanged. */
  ghost predicate RefreshRefused(company: string, st: Standing, e: AuthError) {
    match e
    case UserNotFoundOrInactive => !st.credentialActive
    case InvalidCredentials => st.credentialActive && st.directory.Missing?
    case ScopeRevoked =>
      && st.credentialActive && st.directory.Found?
      && (!HasScope(st) || (company != "" && company !in st.companies))
    case CompanyNotActive =>
      && st.credentialActive && st.directory.Found?
      && company != "" && company in st.companies && st.companyStatus == Some(false)
    case Unavailable =>
      && st.credentialActive
      && (st.directory.Unreachable? || (st.directory.Found? && company != "" && CompanyUnreadable(st, company)))
    case _ => false
  }

  /** Why the user of two spent tokens gets no global session back. */
  ghost predicate ExitRefused(st: Standing, e: AuthError) {
    match e
    case UserNotFoundOrInactive => !st.credentialActive
    case InvalidCredentials => st.credentialActive && st.directory.Missing?
    case Unavailable => st.credentialActive && st.directory.Unreachable?
    case ScopeRevoked => st.credentialActive && st.directory.Found? && !HasScope(st)
    case _ => false
  }

  lemma RefreshDecides(company: string, st: Standing)
    ensures RefreshError(company, st).None? <==>
              st.credentialActive && HasScope(st) && (company != "" ==> InCompany(st, company))
    ensures forall e :: RefreshError(company, st) == Some(e) <==> RefreshRefused(company, st, e)
  {
  }

  lemma RunStep(c: Config, s: State, es: seq<Event>, e: Event)
    ensures Run(c, s, es + [e]) == Step(c, Run(c, s, es), e)
  {
    assert (es + [e])[..|es|] == es;
  }

  ghost function BeginCall(jti: nat, exiting: bool): Call { if exiting then TakingGlobal(jti) else Rotating(jti) }

  ghost function BeginEvent(call: nat, jti: nat, exiting: bool): Event {
    if exiting then BeginExit(call, jti) else BeginRefresh(call, jti)
  }

  lemma BeginRuns(c: Config, s: State, call: nat, jti: nat, exiting: bool)
    ensures Run(c, s, [BeginEvent(call, jti, exiting)]) == Begin(s, call, jti, BeginCall(jti, exiting))
  {
    assert [BeginEvent(call, jti, exiting)][..0] == [];
  }

  lemma RotateStep(c: Config, s: State, call: nat, jti: nat, superAdmin: bool)
    requires call in s.calls && s.calls[call].Rotating? && s.calls[call].jti in s.issued && jti !in s.issued
    ensures var t := Rotated(c, s, s.calls[call].jti, superAdmin);
            var minted := Mint(c, End(s, call), jti, t);
            Step(c, s, MintRefresh(call, jti, superAdmin))
            == if t.company == "" then minted else Put(minted, call, Reading(t.sub))
  {
  }

  lemma RestoreStep(c: Config, s: State, call: nat, jti: nat, superAdmin: bool)
    requires call in s.calls && s.calls[call].Restoring? && s.calls[call].jti in s.issued && jti !in s.issued
    ensures Step(c, s, MintExit(call, jti, superAdmin))
            == Mint(c, End(s, call), jti, Restored(c, s, s.calls[call].jti, s.calls[call].stored, superAdmin))
  {
  }

  /** Redis, with a record of every token ever issued. Time stands still within a request. */
  class TokenService {
    const config: Config
    var now: int
    var store: map<Key, Entry>
    ghost var calls: map<nat, Call>
    ghost var issued: map<nat, Token>
    ghost var deadline: map<nat, int>
    ghost var consumed: set<nat>
    ghost var revoked: set<nat>

    constructor (config: Config, now: int)
      ensures this.config == config && Initial(Snapshot()) && Snapshot().now == now
    {
      this.config := config;
      this.now, this.store := now, map[];
      this.calls, this.issued, this.deadline := map[], map[], map[];
      this.consumed, this.revoked := {}, {};
    }

    ghost function Snapshot(): State
      reads this
    {
      State(now, store, calls, issued, deadline, consumed, revoked)
    }

    /** The request took the steps `trace`, undisturbed. */
    ghost predicate Ran(before: State, trace: seq<Event>)
      reads this
    {
      Snapshot() == Run(config, before, trace)
    }

    // Redis commands

    method GetDel(k: Key) returns (r: Option<nat>)
      modifies this`store, this`consumed
      ensures Snapshot() == Take(old(Snapshot()), k)
      ensures r == if Visible(old(Snapshot()), k) then Some(old(store)[k].value) else None
    {
      var visible := k in store && now < store[k].expiresAt;
      r := if visible then Some(store[k].value) else None;
      if k.RefreshKey? && visible {
        consumed := consumed + {k.jti};
      }
      store := store - {k};
    }

    method Del(k: Key)
      modifies this`store, this`revoked
      ensures Snapshot() == Delete(old(Snapshot()), k)
    {
      if k.RefreshKey? && k in store && now < store[k].expiresAt {
        revoked := revoked + {k.jti};
      }
      store := store - {k};
    }

    method Expire(k: Key)
      modifies this`store, this`deadline
      ensures Snapshot() == Touch(config, old(Snapshot()), k)
    {
      if k in store && now < store[k].expiresAt {
        store := store[k := Entry(store[k].value, now + config.redisTtl)];
        if k.RefreshKey? {
          deadline := deadline[k.jti := now + config.redisTtl];
        }
      }
    }

    /** Issues the pair under `jti`, a random id that no token had before. */
    method GenerateTokenPair(jti: nat, t: Token)
      requires jti !in issued
      modifies this`store, this`issued, this`deadline
      ensures Snapshot() == Mint(config, old(Snapshot()), jti, t)
    {
      store := store[RefreshKey(t.sub, jti) := Entry(1, now + config.redisTtl)];
      issued := issued[jti := t];
      deadline := deadline[jti := now + config.redisTtl];
    }

    // Requests

    /** The part of login after the password was accepted. */
    method Login(sub: nat, st: Standing, jti: nat) returns (r: Result<Signed, AuthError>, ghost trace: seq<Event>)
      requires jti !in issued
      modifies this
      ensures Ran(old(Snapshot()), trace)
      ensures r.Success? <==> st.directory.Found? && (st.superAdmin || st.companies != {})
      ensures r == Failure(Unavailable) <==> st.directory.Unreachable?
      ensures r.Failure? ==> Snapshot() == old(Snapshot()) && r.error in {Unavailable, InvalidCredentials}
      ensures r.Success? ==>
                && r.value.token == Token(sub, "", st.superAdmin, now + config.jwtTtl, AuthTokens.Login)
                && Granted(old(Snapshot()), r.value, jti, sub)
                && store == old(store)[RefreshKey(sub, jti) := Entry(1, now + config.redisTtl)]
    {
      trace := [];
      var e := ScopeError(st);
      if e.Some? {
        return Failure(if e.value.ScopeRevoked? then InvalidCredentials else e.value), [];
      }
      var t := Token(sub, "", st.superAdmin, now + config.jwtTtl, AuthTokens.Login);
      RunStep(config, Snapshot(), [], LoginMint(jti, sub, st.superAdmin));
      GenerateTokenPair(jti, t);
      return Success(Signed(jti, t)), [] + [LoginMint(jti, sub, st.superAdmin)];
    }

    /** A pair was issued that no older token was given up for. */
    ghost predicate Granted(before: State, s: Signed, jti: nat, sub: nat)
      reads this
    {
      && s.jti == jti && s.token.sub == sub
      && issued == before.issued[jti := s.token] && consumed == before.consumed && revoked == before.revoked
      && (0 < config.redisTtl ==> IsLive(Snapshot(), jti))
    }

    /** Saves the global token of the cookie, if there is one, and issues a pair for the company. */
    method SwitchCompany(sub: nat, company: string, cookie: Option<nat>, st: Standing, jti: nat)
      returns (r: Result<Signed, AuthError>, ghost trace: seq<Event>)
      requires jti !in issued
      modifies this
      ensures Ran(old(Snapshot()), trace)
      ensures r.Success? <==>
                && st.directory.Found? && company in st.companies && st.companyStatus == Some(true)
                && st.credentialActive && st.permissionsReadable
      ensures r.Failure? ==> SwitchRefused(company, st, r.error)
      ensures r.Success? ==>
                && r.value.token == Token(sub, company, false, now + config.jwtTtl, Switch)
                && Granted(old(Snapshot()), r.value, jti, sub)
                && RefreshKey(sub, jti) in store
                && store[RefreshKey(sub, jti)] == Entry(1, now + config.redisTtl)
      ensures r.Failure? ==> issued == old(issued) && forall k: Key | k.RefreshKey? :: Same(k, old(store), store)
      ensures forall k: Key | k != RefreshKey(sub, jti) && k != GlobalKey(sub) :: Same(k, old(store), store)
      ensures cookie.None? ==> Same(GlobalKey(sub), old(store), store)
      // A context saved earlier wins over the cookie.
      ensures Visible(old(Snapshot()), GlobalKey(sub)) ==> Same(GlobalKey(sub), old(store), store)
      ensures !Visible(old(Snapshot()), GlobalKey(sub)) && cookie.Some? ==>
                GlobalKey(sub) in store && store[GlobalKey(sub)] == Entry(cookie.value, now + config.redisTtl)
    {
      trace := [];
      ghost var before := Snapshot();
      if cookie.Some? {
        RunStep(config, before, trace, SaveGlobal(sub, cookie.value));
        trace := trace + [SaveGlobal(sub, cookie.value)];
        var k := GlobalKey(sub);
        if !(k in store && now < store[k].expiresAt) {
          store := store[k := Entry(cookie.value, now + config.redisTtl)];
        }
      }
      if st.directory.Missing? {
        return Failure(UserNotFound), trace;
      }
      if st.directory.Unreachable? {
        return Failure(Unavailable), trace;
      }
      if company !in st.companies {
        return Failure(UserNotInCompany), trace;
      }
      var e := CompanyError(st);
      if e.Some? {
        return Failure(e.value), trace;
      }
      if !st.credentialActive {
        return Failure(UserNotFoundOrInactive), trace;
      }
      if !st.permissionsReadable {
        return Failure(Unavailable), trace;
      }
      var t := Token(sub, company, false, now + config.jwtTtl, Switch);
      RunStep(config, before, trace, SwitchMint(jti, sub, company));
      trace := trace + [SwitchMint(jti, sub, company)];
      GenerateTokenPair(jti, t);
      r := Success(Signed(jti, t));
    }

    /** Key `k` holds the same before and after. */
    predicate Same(k: Key, a: map<Key, Entry>, b: map<Key, Entry>) {
      (k in a <==> k in b) && (k in a ==> a[k] == b[k])
    }

    /** A presented token; its signature only verifies if this service issued it. */
    ghost predicate Genuine(p: Option<Signed>)
      reads this
    {
      p.Some? ==> p.value.jti in issued && issued[p.value.jti] == p.value.token
    }

    /** The presented token verifies, has not run out, and is still in Redis. */
    ghost predicate Accepted(p: Option<Signed>)
      reads this
    {
      p.Some? && now < p.value.token.exp && Visible(Snapshot(), RefreshKey(p.value.token.sub, p.value.jti))
    }

    /** Verifies a token and consumes it: only the caller that gets `ok` may exchange it. */
    method Consume(p: Option<Signed>, ghost call: nat, ghost exiting: bool)
      returns (verified: bool, ok: bool, ghost trace: seq<Event>)
      requires Genuine(p) && call !in calls
      modifies this`store, this`consumed, this`calls
      ensures Ran(old(Snapshot()), trace)
      ensures ok == old(Accepted(p)) && verified == (p.Some? && now < p.value.token.exp)
      ensures ok ==> Snapshot() == Put(Take(old(Snapshot()), RefreshKey(p.value.token.sub, p.value.jti)), call,
                                       BeginCall(p.value.jti, exiting))
      ensures !ok ==> consumed == old(consumed) && calls == old(calls)
      ensures forall k: Key | p.None? || k != RefreshKey(p.value.token.sub, p.value.jti) :: Same(k, old(store), store)
    {
      ghost var before := Snapshot();
      if p.None? || p.value.token.exp <= now {
        return false, false, [];
      }
      BeginRuns(config, before, call, p.value.jti, exiting);
      trace := [BeginEvent(call, p.value.jti, exiting)];
      var value := GetDel(RefreshKey(p.value.token.sub, p.value.jti));
      if value.Some? {
        calls := calls[call := BeginCall(p.value.jti, exiting)];
      }
      return true, value.Some?, trace;
    }

    /**
     Exchanges a refresh token. It succeeds exactly for an accepted token whose user still has the
     scope of the token; the new token has the same scope, and a company session keeps its saved
     global token alive.
     */
    method Refresh(p: Option<Signed>, st: Standing, jti: nat, ghost call: nat)
      returns (r: Result<Signed, AuthError>, ghost trace: seq<Event>)
      requires Genuine(p) && jti !in issued && call !in calls
      modifies this
      ensures Ran(old(Snapshot()), trace) && calls == old(calls)
      ensures now == old(now)
      ensures r.Success? <==>
                && old(Accepted(p)) && st.credentialActive && HasScope(st)
                && (p.value.token.company != "" ==> InCompany(st, p.value.token.company))
      ensures r == Failure(RefreshTokenInvalid) <==> p.None? || p.value.token.exp <= now
      ensures r == Failure(RefreshTokenRevoked) <==> p.Some? && now < p.value.token.exp && !old(Accepted(p))
      ensures old(Accepted(p)) && r.Failure? ==> RefreshRefused(p.value.token.company, st, r.error)
      // Whatever comes after, an accepted token is spent.
      ensures old(Accepted(p)) ==> p.value.jti in consumed && RefreshKey(p.value.token.sub, p.value.jti) !in store
      ensures !old(Accepted(p)) ==> r.Failure? && issued == old(issued) && consumed == old(consumed)
      ensures r.Failure? && p.Some? ==>
                forall k: Key | k != RefreshKey(p.value.token.sub, p.value.jti) :: Same(k, old(store), store)
      ensures r.Success? ==>
                && r.value == Signed(jti, SameScope(p.value, st.superAdmin))
                && issued == old(issued)[jti := r.value.token] && consumed == old(consumed) + {p.value.jti}
                && (0 < config.redisTtl ==> IsLive(Snapshot(), jti))
                && Rekeyed(old(Snapshot()), p.value, jti)
    {
      ghost var before := Snapshot();
      var verified, ok;
      verified, ok, trace := Consume(p, call, false);
      if !ok {
        return Failure(if verified then RefreshTokenRevoked else RefreshTokenInvalid), trace;
      }
      RefreshDecides(p.value.token.company, st);
      ghost var spent := Snapshot();
      r, trace := Exchange(p.value, st, jti, before, trace, call);
      if r.Success? { RekeyedSince(before, spent, p.value, jti); }
    }

    /** Subject and company of the old token; the super-admin claim goes into global tokens only. */
    ghost function SameScope(p: Signed, superAdmin: bool): Token
      reads this
    {
      Token(p.token.sub, p.token.company, superAdmin && p.token.company == "", now + config.jwtTtl, Rotation(p.jti))
    }

    /**
     The key of the new token is there, that of the old one is gone, and nothing else changed, except
     that a company session gives its saved context and the token it names their full time again.
     */
    ghost predicate Rekeyed(before: State, p: Signed, jti: nat)
      reads this
    {
      var sub, full := p.token.sub, now + config.redisTtl;
      var saved := if p.token.company != "" && Visible(before, GlobalKey(sub))
                   then Some(before.store[GlobalKey(sub)].value) else None;
      && RefreshKey(sub, jti) in store && store[RefreshKey(sub, jti)] == Entry(1, full)
      && (p.jti != jti ==> RefreshKey(sub, p.jti) !in store)
      && (saved.Some? ==> GlobalKey(sub) in store && store[GlobalKey(sub)] == Entry(saved.value, full))
      && (saved.Some? && saved.value != jti && saved.value != p.jti && Visible(before, RefreshKey(sub, saved.value)) ==>
            var k := RefreshKey(sub, saved.value); k in store && store[k] == Entry(before.store[k].value, full))
      && (forall k: Key | k != RefreshKey(sub, jti) && k != RefreshKey(sub, p.jti) ::
            Same(k, before.store, store)
            || (saved.Some? && (k == GlobalKey(sub) || k == RefreshKey(sub, saved.value))))
    }

    lemma RekeyedSince(before: State, spent: State, p: Signed, jti: nat)
      requires spent.now == before.now && spent.store == before.store - {RefreshKey(p.token.sub, p.jti)}
      requires Rekeyed(spent, p, jti)
      ensures Rekeyed(before, p, jti)
    {
      forall k: Key | k != RefreshKey(p.token.sub, p.jti)
        ensures Visible(before, k) == Visible(spent, k)
        ensures Same(k, spent.store, store) ==> Same(k, before.store, store)
      {
      }
    }

    /** The part of a refresh after the token is spent. */
    method Exchange(p: Signed, st: Standing, jti: nat,
                    ghost before: State, ghost sofar: seq<Event>, ghost call: nat)
      returns (r: Result<Signed, AuthError>, ghost trace: seq<Event>)
      requires Ran(before, sofar) && call in calls && calls[call] == Rotating(p.jti) && jti !in issued
      requires p.jti in issued && issued[p.jti] == p.token && RefreshKey(p.token.sub, p.jti) !in store
      modifies this
      ensures Ran(before, trace) && calls == old(calls) - {call} && now == old(now)
      ensures consumed == old(consumed) && revoked == old(revoked)
      ensures match RefreshError(p.token.company, st)
              case Some(e) => r == Failure(e) && issued == old(issued) && store == old(store)
              case None =>
                && r == Success(Signed(jti, SameScope(p, st.superAdmin)))
                && issued == old(issued)[jti := r.value.token]
                && Rekeyed(old(Snapshot()), p, jti)
    {
      var e := RefreshError(p.token.company, st);
      if e.Some? {
        RunStep(config, before, sofar, Fail(call));
        trace := sofar + [Fail(call)];
        calls := calls - {call};
        return Failure(e.value), trace;
      }
      var t;
      t, trace := Rotate(p.jti, p.token, st.superAdmin, jti, before, sofar, call);
      r := Success(Signed(jti, t));
      if p.token.company != "" {
        trace := ExtendGlobal(t.sub, before, trace, call);
      }
    }

    /** Exchanges a consumed token for a pair of the same subject and company. */
    method Rotate(parent: nat, parentToken: Token, superAdmin: bool, jti: nat,
                  ghost before: State, ghost sofar: seq<Event>, ghost call: nat)
      returns (t: Token, ghost trace: seq<Event>)
      requires Ran(before, sofar) && call in calls && calls[call] == Rotating(parent) && jti !in issued
      requires parent in issued && issued[parent] == parentToken
      modifies this`store, this`issued, this`deadline, this`calls
      ensures Ran(before, trace)
      ensures t == Rotated(config, old(Snapshot()), parent, superAdmin)
      ensures var minted := Mint(config, End(old(Snapshot()), call), jti, t);
              Snapshot() == if t.company == "" then minted else Put(minted, call, Reading(t.sub))
    {
      ghost var cur := Snapshot();
      RunStep(config, before, sofar, MintRefresh(call, jti, superAdmin));
      RotateStep(config, cur, call, jti, superAdmin);
      trace := sofar + [MintRefresh(call, jti, superAdmin)];
      t := Token(parentToken.sub, parentToken.company, parentToken.company == "" && superAdmin,
                 now + config.jwtTtl, Rotation(parent));
      calls := calls - {call};
      GenerateTokenPair(jti, t);
      if t.company != "" {
        calls := calls[call := Reading(t.sub)];
      }
    }

    method ExtendKey(k: Key, ghost before: State, ghost sofar: seq<Event>, ghost call: nat)
      returns (ghost trace: seq<Event>)
      requires Ran(before, sofar) && call in calls && calls[call].Touching? && k in calls[call].pending
      modifies this`store, this`deadline, this`calls
      ensures Ran(before, trace)
      ensures calls == old(calls)[call := Touching(old(calls)[call].pending - {k})]
      ensures store == if Visible(old(Snapshot()), k)
                       then old(store)[k := Entry(old(store)[k].value, now + config.redisTtl)]
                       else old(store)
    {
      RunStep(config, before, sofar, Extend(call, k));
      trace := sofar + [Extend(call, k)];
      Expire(k);
      calls := calls[call := Touching(calls[call].pending - {k})];
    }

    /** A company session keeps its saved global token from running out. */
    method ExtendGlobal(sub: nat, ghost before: State, ghost sofar: seq<Event>, ghost call: nat)
      returns (ghost trace: seq<Event>)
      requires Ran(before, sofar) && call in calls && calls[call] == Reading(sub)
      modifies this
      ensures Ran(before, trace) && calls == old(calls) - {call}
      ensures issued == old(issued) && consumed == old(consumed) && revoked == old(revoked) && now == old(now)
      ensures var g := GlobalKey(sub);
              if !Visible(old(Snapshot()), g) then store == old(store)
              else
                var k := RefreshKey(sub, old(store)[g].value);
                var saved := old(store)[g := Entry(old(store)[g].value, now + config.redisTtl)];
                store == if Visible(old(Snapshot()), k)
                         then saved[k := Entry(old(store)[k].value, now + config.redisTtl)] else saved
    {
      trace := sofar;
      var globalKey := GlobalKey(sub);
      RunStep(config, before, trace, ReadGlobal(call));
      trace := trace + [ReadGlobal(call)];
      if globalKey in store && now < store[globalKey].expiresAt {
        var tokenKey := RefreshKey(sub, store[globalKey].value);
        calls := calls[call := Touching({globalKey, tokenKey})];
        trace := ExtendKey(globalKey, before, trace, call);
        trace := ExtendKey(tokenKey, before, trace, call);
        RunStep(config, before, trace, Fail(call));
        trace := trace + [Fail(call)];
      }
      calls := calls - {call};
    }

    /** The saved context of the user names a token that is still in Redis and is not the presented one. */
    ghost predicate CanRestore(p: Signed)
      reads this
    {
      var k := GlobalKey(p.token.sub);
      && Visible(Snapshot(), k) && store[k].value != p.jti
      && Visible(Snapshot(), RefreshKey(p.token.sub, store[k].value))
    }

    /** `k` is the key of the token that the saved context of the user names. */
    ghost predicate NamedBySaved(before: State, sub: nat, k: Key) {
      Visible(before, GlobalKey(sub)) && k == RefreshKey(sub, before.store[GlobalKey(sub)].value)
    }

    /** Takes the saved jti, then the token it names. */
    method ConsumeGlobal(company: nat, sub: nat, ghost before: State, ghost sofar: seq<Event>, ghost call: nat)
      returns (r: Option<nat>, ghost trace: seq<Event>)
      requires Ran(before, sofar) && call in calls && calls[call] == TakingGlobal(company)
      requires company in issued && issued[company].sub == sub
      modifies this`store, this`consumed, this`calls
      ensures Ran(before, trace)
      ensures GlobalKey(sub) !in store && old(consumed) <= consumed
      ensures var before := old(Snapshot());
              var k := GlobalKey(sub);
              r == if Visible(before, k) && Visible(before, RefreshKey(sub, before.store[k].value))
                   then Some(before.store[k].value) else None
      ensures r.Some? ==>
                calls == old(calls)[call := Restoring(company, r.value)] && consumed == old(consumed) + {r.value}
      ensures r.Some? ==> store == old(store) - {GlobalKey(sub), RefreshKey(sub, r.value)}
      ensures OthersSame(old(Snapshot()), sub)
      ensures r.None? ==> calls == old(calls) - {call}
    {
      trace := sofar;
      RunStep(config, before, trace, TakeGlobal(call));
      trace := trace + [TakeGlobal(call)];
      r := GetDel(GlobalKey(sub));
      if r.None? {
        calls := calls - {call};
        return;
      }
      calls := calls[call := TakingToken(company, r.value)];

      RunStep(config, before, trace, TakeToken(call));
      trace := trace + [TakeToken(call)];
      var globalToken := GetDel(RefreshKey(sub, r.value));
      if globalToken.None? {
        r := None;
        calls := calls - {call};
        return;
      }
      calls := calls[call := Restoring(company, r.value)];
    }

    /** Exchanges both consumed tokens for a global pair. */
    method Restore(company: nat, stored: nat, sub: nat, superAdmin: bool, jti: nat,
                   ghost before: State, ghost sofar: seq<Event>, ghost call: nat)
      returns (t: Token, ghost trace: seq<Event>)
      requires Ran(before, sofar) && call in calls && calls[call] == Restoring(company, stored) && jti !in issued
      requires company in issued && issued[company].sub == sub
      modifies this`store, this`issued, this`deadline, this`calls
      ensures Ran(before, trace)
      ensures t == Token(sub, "", superAdmin, now + config.jwtTtl, Exit(company, stored))
      ensures Snapshot() == Mint(config, End(old(Snapshot()), call), jti, t)
    {
      ghost var cur := Snapshot();
      RunStep(config, before, sofar, MintExit(call, jti, superAdmin));
      RestoreStep(config, cur, call, jti, superAdmin);
      trace := sofar + [MintExit(call, jti, superAdmin)];
      t := Token(sub, "", superAdmin, now + config.jwtTtl, Exit(company, stored));
      calls := calls - {call};
      GenerateTokenPair(jti, t);
    }

    /**
     Leaves a company: both the presented token and the saved global one are spent for a new global
     pair. The saved context is gone in any case once the presented token was accepted.
     */
    method ExitCompany(p: Option<Signed>, st: Standing, jti: nat, ghost call: nat)
      returns (r: Result<Signed, AuthError>, ghost trace: seq<Event>)
      requires Genuine(p) && jti !in issued && call !in calls
      modifies this
      ensures Ran(old(Snapshot()), trace) && calls == old(calls) && now == old(now)
      ensures r.Success? <==> old(Accepted(p)) && old(CanRestore(p.value)) && st.credentialActive && HasScope(st)
      ensures r == Failure(CompanyRefreshTokenInvalid) <==> p.None? || p.value.token.exp <= now
      ensures r == Failure(CompanySessionRevoked) <==> p.Some? && now < p.value.token.exp && !old(Accepted(p))
      ensures r == Failure(GlobalSessionExpired) <==> old(Accepted(p)) && !old(CanRestore(p.value))
      ensures old(Accepted(p)) && old(CanRestore(p.value)) && r.Failure? ==> ExitRefused(st, r.error)
      ensures old(Accepted(p)) ==> p.value.jti in consumed && GlobalKey(p.value.token.sub) !in store
      ensures r.Success? ==>
                var sub, g := p.value.token.sub, old(store)[GlobalKey(p.value.token.sub)].value;
                && r.value == Signed(jti, Token(sub, "", st.superAdmin, now + config.jwtTtl, Exit(p.value.jti, g)))
                && issued == old(issued)[jti := r.value.token]
                && consumed == old(consumed) + {p.value.jti, g}
                && (0 < config.redisTtl ==> IsLive(Snapshot(), jti))
                && store == (old(store) - {RefreshKey(sub, p.value.jti), GlobalKey(sub), RefreshKey(sub, g)})
                            [RefreshKey(sub, jti) := Entry(1, now + config.redisTtl)]
      ensures r.Failure? ==> issued == old(issued)
      ensures r.Failure? && p.Some? ==>
                var sub := p.value.token.sub;
                forall k: Key | k != RefreshKey(sub, p.value.jti) && k != GlobalKey(sub)
                                && !NamedBySaved(old(Snapshot()), sub, k) :: Same(k, old(store), store)
    {
      ghost var before := Snapshot();
      var verified, ok;
      verified, ok, trace := Consume(p, call, true);
      if !ok {
        return Failure(if verified then CompanySessionRevoked else CompanyRefreshTokenInvalid), trace;
      }
      ghost var spent := Snapshot();
      r, trace := ExchangeBoth(p.value, st, jti, before, trace, call);
      if r.Failure? { OthersSince(before, spent, p.value); }
    }

    lemma OthersSince(before: State, spent: State, p: Signed)
      requires spent.now == before.now && spent.store == before.store - {RefreshKey(p.token.sub, p.jti)}
      requires OthersSame(spent, p.token.sub)
      ensures forall k: Key | k != RefreshKey(p.token.sub, p.jti) && k != GlobalKey(p.token.sub)
                              && !NamedBySaved(before, p.token.sub, k) :: Same(k, before.store, store)
    {
      forall k: Key | k != RefreshKey(p.token.sub, p.jti) && k != GlobalKey(p.token.sub)
                      && !NamedBySaved(before, p.token.sub, k)
        ensures Same(k, before.store, store)
      {
        assert !NamedBySaved(spent, p.token.sub, k);
        assert Same(k, spent.store, store);
      }
    }

    /** No key changed but the saved context of the user and that of the token it names. */
    ghost predicate OthersSame(before: State, sub: nat)
      reads this
    {
      forall k: Key | k != GlobalKey(sub) && !NamedBySaved(before, sub, k) :: Same(k, before.store, store)
    }

    /** The part of an exit after the company token is spent. */
    method ExchangeBoth(p: Signed, st: Standing, jti: nat,
                        ghost before: State, ghost sofar: seq<Event>, ghost call: nat)
      returns (r: Result<Signed, AuthError>, ghost trace: seq<Event>)
      requires Ran(before, sofar) && call in calls && calls[call] == TakingGlobal(p.jti) && jti !in issued
      requires p.jti in issued && issued[p.jti] == p.token
      modifies this
      ensures Ran(before, trace) && calls == old(calls) - {call} && now == old(now)
      ensures GlobalKey(p.token.sub) !in store && old(consumed) <= consumed
      ensures r == Failure(GlobalSessionExpired) <==> !old(Restorable(p.token.sub))
      ensures old(Restorable(p.token.sub)) && r.Failure? ==> ExitRefused(st, r.error)
      ensures r.Success? <==> old(Restorable(p.token.sub)) && st.credentialActive && HasScope(st)
      ensures r.Success? ==>
                var sub, g := p.token.sub, old(store)[GlobalKey(p.token.sub)].value;
                && r.value == Signed(jti, Token(sub, "", st.superAdmin, now + config.jwtTtl, Exit(p.jti, g)))
                && issued == old(issued)[jti := r.value.token] && consumed == old(consumed) + {g}
                && store == (old(store) - {GlobalKey(sub), RefreshKey(sub, g)})
                            [RefreshKey(sub, jti) := Entry(1, now + config.redisTtl)]
      ensures r.Failure? ==> issued == old(issued) && OthersSame(old(Snapshot()), p.token.sub)
    {
      var stored;
      stored, trace := ConsumeGlobal(p.jti, p.token.sub, before, sofar, call);
      if stored.None? {
        return Failure(GlobalSessionExpired), trace;
      }
      var e := if !st.credentialActive then Some(UserNotFoundOrInactive) else ScopeError(st);
      if e.Some? {
        RunStep(config, before, trace, Fail(call));
        trace := trace + [Fail(call)];
        calls := calls - {call};
        return Failure(e.value), trace;
      }
      var t;
      t, trace := Restore(p.jti, stored.value, p.token.sub, st.superAdmin, jti, before, trace, call);
      r := Success(Signed(jti, t));
    }

    ghost predicate Restorable(sub: nat)
      reads this
    {
      Visible(Snapshot(), GlobalKey(sub)) && Visible(Snapshot(), RefreshKey(sub, store[GlobalKey(sub)].value))
    }

    /** What SCAN promises about keys that are there for the whole scan: each is in some batch. */
    ghost predicate Scanned(sub: nat, batches: seq<seq<Key>>)
      reads this
    {
      && (forall k: Key | k in store && k.RefreshKey? && k.sub == sub ::
           exists i :: 0 <= i < |batches| && k in batches[i])
      && (forall i, k: Key | 0 <= i < |batches| && k in batches[i] :: k.RefreshKey? && k.sub == sub)
    }

    /** Ends every session of the user and nothing else. */
    method RevokeAllRefreshTokens(sub: nat, batches: seq<seq<Key>>) returns (ghost trace: seq<Event>)
      requires Scanned(sub, batches)
      modifies this`store, this`revoked
      ensures Ran(old(Snapshot()), trace)
      ensures forall k: Key | k.RefreshKey? && k.sub == sub :: k !in store
      ensures forall k: Key | !(k.RefreshKey? && k.sub == sub) :: Same(k, old(store), store)
      ensures forall j | Visible(old(Snapshot()), RefreshKey(sub, j)) :: j in revoked
    {
      trace := [];
      ghost var before := Snapshot();
      var i := 0;
      while i < |batches|
        modifies this`store, this`revoked
        invariant 0 <= i <= |batches| && Ran(before, trace)
        invariant forall k: Key | !(k.RefreshKey? && k.sub == sub) :: Same(k, old(store), store)
        invariant forall k: Key | k in store :: k in old(store) && store[k] == old(store)[k]
        invariant forall k: Key | k in store && k.RefreshKey? && k.sub == sub ::
            exists m :: i <= m < |batches| && k in batches[m]
        invariant forall j | Visible(before, RefreshKey(sub, j)) :: RefreshKey(sub, j) in store || j in revoked
      {
        trace := DeleteBatch(sub, batches[i], before, trace);
        i := i + 1;
      }
    }

    /** DEL of one batch. */
    method DeleteBatch(sub: nat, keys: seq<Key>, ghost before: State, ghost sofar: seq<Event>)
      returns (ghost trace: seq<Event>)
      requires Ran(before, sofar)
      requires forall k: Key | k in keys :: k.RefreshKey? && k.sub == sub
      modifies this`store, this`revoked
      ensures Ran(before, trace)
      ensures forall k: Key :: k in store <==> k in old(store) && k !in keys
      ensures forall k: Key | k in store :: store[k] == old(store)[k]
      ensures old(revoked) <= revoked
      ensures forall k: Key | k in keys && Visible(old(Snapshot()), k) :: k.jti in revoked
    {
      trace := sofar;
      var i := 0;
      while i < |keys|
        modifies this`store, this`revoked
        invariant 0 <= i <= |keys| && Ran(before, trace)
        invariant forall k: Key :: k in store <==> k in old(store) && k !in keys[..i]
        invariant forall k: Key | k in store :: store[k] == old(store)[k]
        invariant old(revoked) <= revoked
        invariant forall k: Key | k in keys[..i] && Visible(old(Snapshot()), k) :: k.jti in revoked
      {
        RunStep(config, before, trace, Revoke(sub, keys[i].jti));
        trace := trace + [Revoke(sub, keys[i].jti)];
        assert keys[i] == RefreshKey(sub, keys[i].jti);
        Del(keys[i]);
        i := i + 1;
      }
    }
  }
}
