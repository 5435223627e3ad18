/** Refresh tokens are linear: each is spent once, and what it buys keeps its scope. */
module AuthTokensSafety {
  import opened AuthTokens

  /** The consumed tokens a request may still exchange. */
  function Held(c: Call): set<nat> {
    match c
    case Rotating(j) => {j}
    case TakingGlobal(j) => {j}
    case TakingToken(j, _) => {j}
    case Restoring(j, g) => {j, g}
    case _ => {}
  }

  ghost predicate StoreOk(s: State) {
    && s.issued.Keys == s.deadline.Keys
    && s.consumed !! s.revoked
    && s.consumed <= s.issued.Keys && s.revoked <= s.issued.Keys
    && (forall sub, j | RefreshKey(sub, j) in s.store ::
          && j in s.issued && s.issued[j].sub == sub && j !in s.consumed && j !in s.revoked
          && s.store[RefreshKey(sub, j)].expiresAt == s.deadline[j])
    && (forall j | j in s.issued ::
          j in s.consumed || j in s.revoked || RefreshKey(s.issued[j].sub, j) in s.store || s.deadline[j] <= s.now)
  }

  /** Scope rules of one token. */
  ghost predicate TokenOk(issued: map<nat, Token>, t: Token) {
    && !(t.company != "" && t.superAdmin)
    && (t.via.Login? || t.via.Exit? ==> t.company == "")
    && (t.via.Rotation? ==> t.via.parent in issued && SameScope(issued[t.via.parent], t))
    && (t.via.Exit? ==>
          && t.via.companyJti in issued && t.via.globalJti in issued && t.via.companyJti != t.via.globalJti
          && issued[t.via.companyJti].sub == t.sub && issued[t.via.globalJti].sub == t.sub)
  }

  ghost predicate SameScope(a: Token, b: Token) { a.sub == b.sub && a.company == b.company }

  ghost predicate CallOk(issued: map<nat, Token>, c: Call) {
    c.Restoring? ==>
      && c.jti in issued && c.stored in issued && c.jti != c.stored
      && issued[c.jti].sub == issued[c.stored].sub
  }

  /** A consumed token is held by one request or was exchanged for one token, never more. */
  ghost predicate Linear(s: State) {
    && (forall v | v in s.calls :: Held(s.calls[v]) <= s.consumed)
    && (forall j | j in s.issued :: Parents(s.issued[j]) <= s.consumed)
    && (forall v, w | v in s.calls && w in s.calls && v != w :: Held(s.calls[v]) !! Held(s.calls[w]))
    && (forall j, k | j in s.issued && k in s.issued && j != k :: Parents(s.issued[j]) !! Parents(s.issued[k]))
    && (forall v, j | v in s.calls && j in s.issued :: Held(s.calls[v]) !! Parents(s.issued[j]))
  }

  ghost predicate Inv(s: State) {
    && StoreOk(s) && Linear(s)
    && (forall j | j in s.issued :: TokenOk(s.issued, s.issued[j]))
    && (forall v | v in s.calls :: CallOk(s.issued, s.calls[v]))
  }

  // Redis commands keep the invariant

  lemma TakeKeeps(s: State, k: Key)
    requires Inv(s)
    ensures Inv(Take(s, k))
  {
  }

  lemma DeleteKeeps(s: State, k: Key)
    requires Inv(s)
    ensures Inv(Delete(s, k))
  {
    var t := Delete(s, k);
    if k.RefreshKey? && Visible(s, k) {
      assert k.jti !in s.consumed;
    }
    assert Linear(t);
  }

  lemma TouchKeeps(c: Config, s: State, k: Key)
    requires Inv(s)
    ensures Inv(Touch(c, s, k))
  {
    TouchKeepsStore(c, s, k);
    assert Linear(Touch(c, s, k));
  }

  lemma TouchKeepsStore(c: Config, s: State, k: Key)
    requires StoreOk(s)
    ensures StoreOk(Touch(c, s, k))
  {
    var t := Touch(c, s, k);
    if Visible(s, k) && k.RefreshKey? {
      assert k == RefreshKey(k.sub, k.jti);
      assert t.deadline.Keys == s.deadline.Keys + {k.jti} == s.issued.Keys;
    }
  }

  lemma MintKeeps(c: Config, s: State, jti: nat, t: Token)
    requires Inv(s) && jti !in s.issued && TokenOk(s.issued, t)
    requires Parents(t) <= s.consumed
    requires forall j | j in s.issued :: Parents(s.issued[j]) !! Parents(t)
    requires forall v | v in s.calls :: Held(s.calls[v]) !! Parents(t)
    ensures Inv(Mint(c, s, jti, t))
  {
    MintKeepsStore(c, s, jti, t);
    MintKeepsLinear(c, s, jti, t);
    MintKeepsTokens(s.issued, jti, t);
    MintKeepsCalls(s, jti, t);
  }

  lemma MintKeepsTokens(issued: map<nat, Token>, jti: nat, t: Token)
    requires jti !in issued && TokenOk(issued, t)
    requires forall j | j in issued :: TokenOk(issued, issued[j])
    ensures var after := issued[jti := t]; forall j | j in after :: TokenOk(after, after[j])
  {
    var after := issued[jti := t];
    forall j | j in after ensures TokenOk(after, after[j]) {
      assert j == jti || TokenOk(issued, issued[j]);
    }
  }

  lemma MintKeepsCalls(s: State, jti: nat, t: Token)
    requires jti !in s.issued && forall v | v in s.calls :: CallOk(s.issued, s.calls[v])
    ensures forall v | v in s.calls :: CallOk(s.issued[jti := t], s.calls[v])
  {
  }

  lemma MintKeepsLinear(c: Config, s: State, jti: nat, t: Token)
    requires Linear(s) && jti !in s.issued && Parents(t) <= s.consumed
    requires forall j | j in s.issued :: Parents(s.issued[j]) !! Parents(t)
    requires forall v | v in s.calls :: Held(s.calls[v]) !! Parents(t)
    ensures Linear(Mint(c, s, jti, t))
  {
  }

  lemma MintKeepsStore(c: Config, s: State, jti: nat, t: Token)
    requires StoreOk(s) && jti !in s.issued
    ensures StoreOk(Mint(c, s, jti, t))
  {
    var u := Mint(c, s, jti, t);
    forall sub, j | RefreshKey(sub, j) in u.store
      ensures j in u.issued && u.issued[j].sub == sub && j !in u.consumed && j !in u.revoked
              && u.store[RefreshKey(sub, j)].expiresAt == u.deadline[j]
    {
      if RefreshKey(sub, j) != RefreshKey(t.sub, jti) {
        assert RefreshKey(sub, j) in s.store;
      }
    }
  }

  lemma PutKeeps(s: State, call: nat, d: Call)
    requires Inv(s) && CallOk(s.issued, d) && Held(d) <= s.consumed
    requires forall j | j in s.issued :: Held(d) !! Parents(s.issued[j])
    requires forall v | v in s.calls && v != call :: Held(d) !! Held(s.calls[v])
    ensures Inv(Put(s, call, d))
  {
  }

  lemma EndKeeps(s: State, call: nat)
    requires Inv(s)
    ensures Inv(End(s, call))
  {
  }

  // Requests keep it

  lemma BeginKeeps(s: State, call: nat, jti: nat, next: Call)
    requires Inv(s) && Held(next) == {jti} && !next.Restoring?
    ensures Inv(Begin(s, call, jti, next))
  {
    if call !in s.calls && Presentable(s, jti) {
      var k := RefreshKey(s.issued[jti].sub, jti);
      TakeKeeps(s, k);
      if Visible(s, k) {
        assert jti !in s.consumed;
        PutKeeps(Take(s, k), call, next);
      }
    }
  }

  lemma ExchangeKeeps(c: Config, s: State, call: nat, j: nat, t: Token)
    requires Inv(s) && call in s.calls && j !in s.issued
    requires Parents(t) == Held(s.calls[call]) && TokenOk(s.issued, t)
    ensures Inv(Mint(c, End(s, call), j, t))
  {
    EndKeeps(s, call);
    MintKeeps(c, End(s, call), j, t);
  }

  lemma RotatedOk(c: Config, s: State, parent: nat, sa: bool)
    requires parent in s.issued
    ensures TokenOk(s.issued, Rotated(c, s, parent, sa)) && Parents(Rotated(c, s, parent, sa)) == {parent}
  {
  }

  lemma MintRefreshKeeps(c: Config, s: State, call: nat, j: nat, sa: bool)
    requires Inv(s)
    ensures Inv(StepMintRefresh(c, s, call, j, sa))
  {
    if call in s.calls && s.calls[call].Rotating? && s.calls[call].jti in s.issued && j !in s.issued {
      var t := Rotated(c, s, s.calls[call].jti, sa);
      RotatedOk(c, s, s.calls[call].jti, sa);
      ExchangeKeeps(c, s, call, j, t);
      if t.company != "" {
        PutKeeps(Mint(c, End(s, call), j, t), call, Reading(t.sub));
      }
    }
  }

  lemma RestoredOk(c: Config, s: State, call: Call, sa: bool)
    requires call.Restoring? && CallOk(s.issued, call)
    ensures var t := Restored(c, s, call.jti, call.stored, sa); TokenOk(s.issued, t) && Parents(t) == Held(call)
  {
  }

  lemma MintExitKeeps(c: Config, s: State, call: nat, j: nat, sa: bool)
    requires Inv(s)
    ensures Inv(StepMintExit(c, s, call, j, sa))
  {
    if call in s.calls && s.calls[call].Restoring? && s.calls[call].jti in s.issued && j !in s.issued {
      RestoredOk(c, s, s.calls[call], sa);
      ExchangeKeeps(c, s, call, j, Restored(c, s, s.calls[call].jti, s.calls[call].stored, sa));
    }
  }

  lemma TakeGlobalKeeps(s: State, call: nat)
    requires Inv(s)
    ensures Inv(StepTakeGlobal(s, call))
  {
    if call in s.calls && s.calls[call].TakingGlobal? && s.calls[call].jti in s.issued {
      var k := GlobalKey(s.issued[s.calls[call].jti].sub);
      TakeKeeps(s, k);
      if Visible(s, k) {
        PutKeeps(Take(s, k), call, TakingToken(s.calls[call].jti, s.store[k].value));
      } else {
        EndKeeps(Take(s, k), call);
      }
    }
  }

  lemma TakeTokenKeeps(s: State, call: nat)
    requires Inv(s)
    ensures Inv(StepTakeToken(s, call))
  {
    if call in s.calls && s.calls[call].TakingToken? && s.calls[call].jti in s.issued {
      var j := s.calls[call].jti;
      var k := RefreshKey(s.issued[j].sub, s.calls[call].stored);
      TakeKeeps(s, k);
      if Visible(s, k) {
        assert j in Held(s.calls[call]);
        assert k.jti !in s.consumed;
        PutKeeps(Take(s, k), call, Restoring(j, k.jti));
      } else {
        EndKeeps(Take(s, k), call);
      }
    }
  }

  lemma ReadGlobalKeeps(s: State, call: nat)
    requires Inv(s)
    ensures Inv(StepReadGlobal(s, call))
  {
    if call in s.calls && s.calls[call].Reading? {
      var k := GlobalKey(s.calls[call].sub);
      if Visible(s, k) {
        PutKeeps(s, call, Touching({k, RefreshKey(k.sub, s.store[k].value)}));
      } else {
        EndKeeps(s, call);
      }
    }
  }

  lemma ExtendKeeps(c: Config, s: State, call: nat, k: Key)
    requires Inv(s)
    ensures Inv(StepExtend(c, s, call, k))
  {
    if call in s.calls && s.calls[call].Touching? && k in s.calls[call].pending {
      TouchKeeps(c, s, k);
      PutKeeps(Touch(c, s, k), call, Touching(s.calls[call].pending - {k}));
    }
  }

  lemma GrantKeeps(c: Config, s: State, j: nat, t: Token)
    requires Inv(s) && TokenOk(s.issued, t) && Parents(t) == {}
    ensures Inv(StepGrant(c, s, j, t))
  {
    if j !in s.issued { MintKeeps(c, s, j, t); }
  }

  /** Passing time, a saved jti, the removal of a key that ran out. */
  lemma StoreKeeps(s: State, t: State)
    requires Inv(s) && StoreOk(t)
    requires t.calls == s.calls && t.issued == s.issued && t.consumed == s.consumed
    ensures Inv(t)
  {
  }

  lemma TickKeeps(s: State, d: nat)
    requires Inv(s)
    ensures Inv(StepTick(s, d))
  {
    assert StoreOk(StepTick(s, d));
    StoreKeeps(s, StepTick(s, d));
  }

  lemma SaveGlobalKeeps(c: Config, s: State, sub: nat, j: nat)
    requires Inv(s)
    ensures Inv(StepSaveGlobal(c, s, sub, j))
  {
    assert StoreOk(StepSaveGlobal(c, s, sub, j));
    StoreKeeps(s, StepSaveGlobal(c, s, sub, j));
  }

  lemma EvictKeeps(s: State, k: Key)
    requires Inv(s)
    ensures Inv(StepEvict(s, k))
  {
    assert StoreOk(StepEvict(s, k));
    StoreKeeps(s, StepEvict(s, k));
  }

  /** Steps outside the requests that exchange a token. */
  predicate IsPlain(e: Event) {
    !(e.BeginRefresh? || e.MintRefresh? || e.BeginExit? || e.TakeGlobal? || e.TakeToken? || e.MintExit?)
  }

  lemma PlainStepKeeps(c: Config, s: State, e: Event)
    requires Inv(s) && IsPlain(e)
    ensures Inv(Step(c, s, e))
  {
    match e
    case Tick(d) => TickKeeps(s, d);
    case LoginMint(j, sub, sa) => GrantKeeps(c, s, j, LoginToken(c, s, sub, sa));
    case SwitchMint(j, sub, company) => GrantKeeps(c, s, j, SwitchToken(c, s, sub, company));
    case SaveGlobal(sub, j) => SaveGlobalKeeps(c, s, sub, j);
    case ReadGlobal(call) => ReadGlobalKeeps(s, call);
    case Extend(call, k) => ExtendKeeps(c, s, call, k);
    case Fail(call) => EndKeeps(s, call);
    case Revoke(sub, j) => DeleteKeeps(s, RefreshKey(sub, j));
    case Evict(k) => EvictKeeps(s, k);
  }

  lemma StepKeeps(c: Config, s: State, e: Event)
    requires Inv(s)
    ensures Inv(Step(c, s, e))
  {
    match e
    case BeginRefresh(call, j) => BeginKeeps(s, call, j, Rotating(j));
    case MintRefresh(call, j, sa) => MintRefreshKeeps(c, s, call, j, sa);
    case BeginExit(call, j) => BeginKeeps(s, call, j, TakingGlobal(j));
    case TakeGlobal(call) => TakeGlobalKeeps(s, call);
    case TakeToken(call) => TakeTokenKeeps(s, call);
    case MintExit(call, j, sa) => MintExitKeeps(c, s, call, j, sa);
    case _ => PlainStepKeeps(c, s, e);
  }

  lemma {:induction false} RunKeeps(c: Config, s: State, es: seq<Event>)
    requires Inv(s)
    ensures Inv(Run(c, s, es))
  {
    if es != [] {
      RunKeeps(c, s, es[..|es| - 1]);
      StepKeeps(c, Run(c, s, es[..|es| - 1]), es[|es| - 1]);
    }
  }

  // Theorems

  ghost predicate Reachable(c: Config, s: State) {
    exists s0, es :: Initial(s0) && s == Run(c, s0, es)
  }

  lemma ReachableInv(c: Config, s: State)
    requires Reachable(c, s)
    ensures Inv(s)
  {
    var s0, es :| Initial(s0) && s == Run(c, s0, es);
    RunKeeps(c, s0, es);
  }

  /** Every issued token is in exactly one of live, consumed, expired and revoked. */
  lemma ExactlyOneFate(c: Config, s: State, jti: nat)
    requires Reachable(c, s) && jti in s.issued
    ensures jti in s.deadline
    ensures exists f :: HasFate(s, jti, f)
    ensures forall f, g | HasFate(s, jti, f) && HasFate(s, jti, g) :: f == g
  {
    ReachableInv(c, s);
    assert jti in s.deadline;
    var k := RefreshKey(s.issued[jti].sub, jti);
    var f := if jti in s.consumed then Consumed else if jti in s.revoked then Revoked
             else if Visible(s, k) then Live else Expired;
    assert HasFate(s, jti, f);
  }

  /** Tokens that ran out unspent. */
  ghost function Ran(s: State): set<nat> {
    set j | j in s.issued && j in s.deadline && HasFate(s, j, Expired)
  }

  ghost predicate Extends(a: map<nat, Token>, b: map<nat, Token>) {
    forall j | j in a :: j in b && b[j] == a[j]
  }

  /** Tokens and their settled fates survive from s to t. */
  ghost predicate Onward(s: State, t: State) {
    && Extends(s.issued, t.issued)
    && s.consumed <= t.consumed && s.revoked <= t.revoked
    && Ran(s) <= Ran(t)
  }

  lemma TakeOnward(s: State, k: Key)
    requires Inv(s)
    ensures Onward(s, Take(s, k)) && Onward(s, Delete(s, k))
  {
  }

  /** EXPIRE never revives a token. */
  lemma TouchOnward(c: Config, s: State, k: Key)
    requires Inv(s)
    ensures Onward(s, Touch(c, s, k))
  {
    forall j | j in Ran(s) ensures j in Ran(Touch(c, s, k)) {
      if k.RefreshKey? && k.jti == j && k in s.store {
        assert s.store[RefreshKey(k.sub, j)].expiresAt == s.deadline[j];
      }
    }
  }

  lemma MintOnward(c: Config, s: State, s': State, jti: nat, t: Token)
    requires Inv(s) && jti !in s.issued
    requires s'.issued == s.issued && s'.deadline == s.deadline && s'.now == s.now
    requires s'.consumed == s.consumed && s'.revoked == s.revoked
    ensures Onward(s, Mint(c, s', jti, t))
  {
  }

  lemma SameTokensOnward(s: State, t: State, u: State)
    requires Onward(s, t) && u.issued == t.issued && u.deadline == t.deadline && t.now <= u.now
    requires u.consumed == t.consumed && u.revoked == t.revoked
    ensures Onward(s, u)
  {
    assert Ran(t) <= Ran(u);
  }

  lemma MintExitOnward(c: Config, s: State, call: nat, j: nat, sa: bool)
    requires Inv(s)
    ensures Onward(s, StepMintExit(c, s, call, j, sa))
  {
    if call in s.calls && s.calls[call].Restoring? && s.calls[call].jti in s.issued && j !in s.issued {
      MintOnward(c, s, End(s, call), j, Restored(c, s, s.calls[call].jti, s.calls[call].stored, sa));
    }
  }

  lemma MintRefreshOnward(c: Config, s: State, call: nat, j: nat, sa: bool)
    requires Inv(s)
    ensures Onward(s, StepMintRefresh(c, s, call, j, sa))
  {
    if call in s.calls && s.calls[call].Rotating? && s.calls[call].jti in s.issued && j !in s.issued {
      var t := Rotated(c, s, s.calls[call].jti, sa);
      MintOnward(c, s, End(s, call), j, t);
      SameTokensOnward(s, Mint(c, End(s, call), j, t), StepMintRefresh(c, s, call, j, sa));
    }
  }

  lemma BeginOnward(s: State, call: nat, j: nat, next: Call)
    requires Inv(s)
    ensures Onward(s, Begin(s, call, j, next))
  {
    if j in s.issued {
      TakeOnward(s, RefreshKey(s.issued[j].sub, j));
      SameTokensOnward(s, Take(s, RefreshKey(s.issued[j].sub, j)),
                       Put(Take(s, RefreshKey(s.issued[j].sub, j)), call, next));
    }
  }

  lemma TakeGlobalOnward(s: State, call: nat)
    requires Inv(s)
    ensures Onward(s, StepTakeGlobal(s, call))
  {
    if call in s.calls && s.calls[call].TakingGlobal? && s.calls[call].jti in s.issued {
      var k := GlobalKey(s.issued[s.calls[call].jti].sub);
      TakeOnward(s, k);
      SameTokensOnward(s, Take(s, k), StepTakeGlobal(s, call));
    }
  }

  lemma TakeTokenOnward(s: State, call: nat)
    requires Inv(s)
    ensures Onward(s, StepTakeToken(s, call))
  {
    if call in s.calls && s.calls[call].TakingToken? && s.calls[call].jti in s.issued {
      var k := RefreshKey(s.issued[s.calls[call].jti].sub, s.calls[call].stored);
      TakeOnward(s, k);
      SameTokensOnward(s, Take(s, k), StepTakeToken(s, call));
    }
  }

  lemma GrantOnward(c: Config, s: State, j: nat, t: Token)
    requires Inv(s)
    ensures Onward(s, StepGrant(c, s, j, t))
  {
    if j !in s.issued { MintOnward(c, s, s, j, t); }
  }

  lemma ExtendOnward(c: Config, s: State, call: nat, k: Key)
    requires Inv(s)
    ensures Onward(s, StepExtend(c, s, call, k))
  {
    if call in s.calls && s.calls[call].Touching? {
      TouchOnward(c, s, k);
      SameTokensOnward(s, Touch(c, s, k), Put(Touch(c, s, k), call, Touching(s.calls[call].pending - {k})));
    }
  }

  lemma QuietOnward(c: Config, s: State, e: Event)
    requires e.Tick? || e.SaveGlobal? || e.ReadGlobal? || e.Fail? || e.Evict?
    ensures Onward(s, Step(c, s, e))
  {
    SameTokensOnward(s, s, Step(c, s, e));
  }

  lemma StepOnward(c: Config, s: State, e: Event)
    requires Inv(s)
    ensures Onward(s, Step(c, s, e))
  {
    if e.LoginMint? {
      GrantOnward(c, s, e.jti, LoginToken(c, s, e.sub, e.superAdmin));
    } else if e.SwitchMint? {
      GrantOnward(c, s, e.jti, SwitchToken(c, s, e.sub, e.company));
    } else if e.BeginRefresh? {
      BeginOnward(s, e.call, e.token, Rotating(e.token));
    } else if e.MintRefresh? {
      MintRefreshOnward(c, s, e.call, e.jti, e.superAdmin);
    } else if e.Extend? {
      ExtendOnward(c, s, e.call, e.key);
    } else if e.BeginExit? {
      BeginOnward(s, e.call, e.token, TakingGlobal(e.token));
    } else if e.TakeGlobal? {
      TakeGlobalOnward(s, e.call);
    } else if e.TakeToken? {
      TakeTokenOnward(s, e.call);
    } else if e.MintExit? {
      MintExitOnward(c, s, e.call, e.jti, e.superAdmin);
    } else if e.Revoke? {
      TakeOnward(s, RefreshKey(e.sub, e.jti));
    } else {
      QuietOnward(c, s, e);
    }
  }

  lemma FateStays(s: State, t: State, jti: nat, f: Fate)
    requires Inv(s) && Inv(t) && Onward(s, t)
    requires jti in s.issued && jti in s.deadline && f != Live && HasFate(s, jti, f)
    ensures jti in t.issued && jti in t.deadline && HasFate(t, jti, f) && !IsLive(t, jti)
  {
    assert f == Expired ==> jti in Ran(s) && jti in Ran(t);
    assert RefreshKey(t.issued[jti].sub, jti) in t.store ==>
        t.store[RefreshKey(t.issued[jti].sub, jti)].expiresAt == t.deadline[jti];
  }

  /** A token that is not live keeps its fate for ever: nothing makes it live again. */
  lemma {:induction false} FateIsFinal(c: Config, s: State, es: seq<Event>, jti: nat, f: Fate)
    requires Reachable(c, s) && jti in s.issued && jti in s.deadline
    requires f != Live && HasFate(s, jti, f)
    ensures var t := Run(c, s, es); jti in t.issued && jti in t.deadline && HasFate(t, jti, f) && !IsLive(t, jti)
  {
    ReachableInv(c, s);
    if es == [] {
      SameTokensOnward(s, s, s);
      FateStays(s, s, jti, f);
    } else {
      var before, e := es[..|es| - 1], es[|es| - 1];
      var mid := Run(c, s, before);
      FateIsFinal(c, s, before, jti, f);
      RunKeeps(c, s, before);
      StepKeeps(c, mid, e);
      StepOnward(c, mid, e);
      FateStays(mid, Step(c, mid, e), jti, f);
    }
  }

  /** Under any interleaving of refreshes and exits a token is exchanged at most once, and is spent when it is. */
  lemma SpentAtMostOnce(c: Config, s: State, parent: nat, a: nat, b: nat)
    requires Reachable(c, s) && a in s.issued && b in s.issued
    requires parent in Parents(s.issued[a]) && parent in Parents(s.issued[b])
    ensures a == b
    ensures parent in s.issued && parent in s.deadline && HasFate(s, parent, Consumed)
  {
    ReachableInv(c, s);
    assert parent in s.consumed;
  }

  /** Each token of a chain was obtained by refreshing the one before. */
  ghost predicate RefreshChain(s: State, chain: seq<nat>) {
    && (forall i :: 0 <= i < |chain| ==> chain[i] in s.issued)
    && (forall i :: 0 < i < |chain| ==> s.issued[chain[i]].via == Rotation(chain[i - 1]))
  }

  lemma {:induction false} ChainKeepsScope(c: Config, s: State, chain: seq<nat>)
    requires Reachable(c, s) && |chain| > 0 && RefreshChain(s, chain)
    ensures SameScope(s.issued[chain[0]], s.issued[chain[|chain| - 1]])
  {
    ReachableInv(c, s);
    if |chain| > 1 {
      ChainKeepsScope(c, s, chain[..|chain| - 1]);
      assert TokenOk(s.issued, s.issued[chain[|chain| - 1]]);
    }
  }

  /** No token carries both a company and the super-admin claim; exit returns to the same user, without company. */
  lemma ScopesStayApart(c: Config, s: State, jti: nat)
    requires Reachable(c, s) && jti in s.issued
    ensures !(s.issued[jti].company != "" && s.issued[jti].superAdmin)
    ensures s.issued[jti].via.Exit? ==>
              && s.issued[jti].company == ""
              && s.issued[jti].via.companyJti in s.issued
              && s.issued[s.issued[jti].via.companyJti].sub == s.issued[jti].sub
  {
    ReachableInv(c, s);
    assert TokenOk(s.issued, s.issued[jti]);
  }
}
