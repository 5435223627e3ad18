/** Sessions are conserved: only login and switch-company add one. */
module AuthTokensConservation {
  import opened AuthTokens
  import opened AuthTokensSafety

  function Usable(s: State): set<nat> { set j | j in s.issued && IsLive(s, j) }

  function Exchanging(s: State): set<nat> { set v | v in s.calls && Held(s.calls[v]) != {} }

  /** Tokens that can be presented, and requests that may still issue one. */
  function Sessions(s: State): nat { |Usable(s)| + |Exchanging(s)| }

  predicate IsGrant(e: Event) { e.LoginMint? || e.SwitchMint? }

  function Grants(es: seq<Event>): nat {
    if es == [] then 0 else Grants(es[..|es| - 1]) + (if IsGrant(es[|es| - 1]) then 1 else 0)
  }

  lemma Subset(a: set<nat>, b: set<nat>)
    requires a <= b
    ensures |a| <= |b|
  {
    assert b == a + (b - a) && a !! (b - a);
    assert |b| == |a| + |b - a|;
  }

  lemma SmallerSets(s: State, t: State)
    requires Usable(t) <= Usable(s) && Exchanging(t) <= Exchanging(s)
    ensures Sessions(t) <= Sessions(s)
  {
    Subset(Usable(t), Usable(s));
    Subset(Exchanging(t), Exchanging(s));
  }

  /** Issuing a token adds one usable token at most. */
  lemma MintAddsOne(c: Config, s: State, jti: nat, t: Token)
    requires Inv(s) && jti !in s.issued
    ensures Usable(Mint(c, s, jti, t)) <= Usable(s) + {jti}
    ensures |Usable(Mint(c, s, jti, t))| <= |Usable(s)| + 1
  {
    Subset(Usable(Mint(c, s, jti, t)), Usable(s) + {jti});
  }

  /** Consuming a live token takes it out of use. */
  lemma TakeRemovesOne(s: State, k: Key)
    requires Inv(s)
    ensures Usable(Take(s, k)) <= Usable(s)
    ensures k.RefreshKey? && Visible(s, k) ==> k.jti in Usable(s) && |Usable(Take(s, k))| <= |Usable(s)| - 1
  {
    if k.RefreshKey? && Visible(s, k) {
      Subset(Usable(Take(s, k)), Usable(s) - {k.jti});
    }
  }

  lemma BeginConserves(s: State, call: nat, j: nat, next: Call)
    requires Inv(s)
    ensures Sessions(Begin(s, call, j, next)) <= Sessions(s)
  {
    if call !in s.calls && Presentable(s, j) {
      var k := RefreshKey(s.issued[j].sub, j);
      TakeRemovesOne(s, k);
      var t := Begin(s, call, j, next);
      Subset(Exchanging(t), Exchanging(s) + {call});
      if Visible(s, k) {
        assert Usable(t) == Usable(Take(s, k));
      } else {
        SmallerSets(s, t);
      }
    }
  }

  /** A request that issues a token gives up its own right to one. */
  lemma ExchangeConserves(c: Config, s: State, call: nat, j: nat, t: Token)
    requires Inv(s) && call in s.calls && Held(s.calls[call]) != {} && j !in s.issued
    ensures Sessions(Mint(c, End(s, call), j, t)) <= Sessions(s)
  {
    EndKeeps(s, call);
    MintAddsOne(c, End(s, call), j, t);
    EndFreesOne(s, call);
    SameCalls(End(s, call), Mint(c, End(s, call), j, t));
  }

  lemma EndFreesOne(s: State, call: nat)
    requires call in s.calls && Held(s.calls[call]) != {}
    ensures Usable(End(s, call)) == Usable(s) && |Exchanging(End(s, call))| == |Exchanging(s)| - 1
  {
    assert Exchanging(End(s, call)) == Exchanging(s) - {call};
    assert call in Exchanging(s);
  }

  lemma SameCalls(s: State, t: State)
    requires s.calls == t.calls
    ensures Exchanging(s) == Exchanging(t)
  {
  }

  lemma MintRefreshConserves(c: Config, s: State, call: nat, j: nat, sa: bool)
    requires Inv(s)
    ensures Sessions(StepMintRefresh(c, s, call, j, sa)) <= Sessions(s)
  {
    if call in s.calls && s.calls[call].Rotating? && s.calls[call].jti in s.issued && j !in s.issued {
      var t := Rotated(c, s, s.calls[call].jti, sa);
      assert s.calls[call].jti in Held(s.calls[call]);
      ExchangeConserves(c, s, call, j, t);
      SmallerSets(Mint(c, End(s, call), j, t), StepMintRefresh(c, s, call, j, sa));
    }
  }

  lemma MintExitConserves(c: Config, s: State, call: nat, j: nat, sa: bool)
    requires Inv(s)
    ensures Sessions(StepMintExit(c, s, call, j, sa)) <= Sessions(s)
  {
    if call in s.calls && s.calls[call].Restoring? && s.calls[call].jti in s.issued && j !in s.issued {
      assert s.calls[call].jti in Held(s.calls[call]);
      ExchangeConserves(c, s, call, j, Restored(c, s, s.calls[call].jti, s.calls[call].stored, sa));
    }
  }

  lemma TakeGlobalConserves(s: State, call: nat)
    requires Inv(s)
    ensures Sessions(StepTakeGlobal(s, call)) <= Sessions(s)
  {
    if call in s.calls && s.calls[call].TakingGlobal? && s.calls[call].jti in s.issued {
      TakeRemovesOne(s, GlobalKey(s.issued[s.calls[call].jti].sub));
      assert s.calls[call].jti in Held(s.calls[call]);
      SmallerSets(s, StepTakeGlobal(s, call));
    }
  }

  lemma TakeTokenConserves(s: State, call: nat)
    requires Inv(s)
    ensures Sessions(StepTakeToken(s, call)) <= Sessions(s)
  {
    if call in s.calls && s.calls[call].TakingToken? && s.calls[call].jti in s.issued {
      TakeRemovesOne(s, RefreshKey(s.issued[s.calls[call].jti].sub, s.calls[call].stored));
      assert s.calls[call].jti in Held(s.calls[call]);
      SmallerSets(s, StepTakeToken(s, call));
    }
  }

  lemma GrantAddsOne(c: Config, s: State, j: nat, t: Token)
    requires Inv(s)
    ensures Sessions(StepGrant(c, s, j, t)) <= Sessions(s) + 1
  {
    if j !in s.issued {
      MintAddsOne(c, s, j, t);
      assert Exchanging(StepGrant(c, s, j, t)) == Exchanging(s);
    }
  }

  /** Extending a key that is gone brings nothing back. */
  lemma TouchAddsNone(c: Config, s: State, k: Key)
    ensures Usable(Touch(c, s, k)) <= Usable(s)
  {
  }

  lemma ExtendConserves(c: Config, s: State, call: nat, k: Key)
    requires Inv(s)
    ensures Sessions(StepExtend(c, s, call, k)) <= Sessions(s)
  {
    TouchAddsNone(c, s, k);
    SmallerSets(s, StepExtend(c, s, call, k));
  }

  lemma PlainConserves(c: Config, s: State, e: Event)
    requires Inv(s) && IsPlain(e) && !IsGrant(e)
    ensures Sessions(Step(c, s, e)) <= Sessions(s)
  {
    match e
    case Tick(d) => SmallerSets(s, StepTick(s, d));
    case SaveGlobal(sub, j) => SmallerSets(s, StepSaveGlobal(c, s, sub, j));
    case ReadGlobal(call) => SmallerSets(s, StepReadGlobal(s, call));
    case Extend(call, k) => ExtendConserves(c, s, call, k);
    case Fail(call) => SmallerSets(s, End(s, call));
    case Revoke(sub, j) => SmallerSets(s, Delete(s, RefreshKey(sub, j)));
    case Evict(k) => SmallerSets(s, StepEvict(s, k));
  }

  lemma StepConserves(c: Config, s: State, e: Event)
    requires Inv(s)
    ensures Sessions(Step(c, s, e)) <= Sessions(s) + (if IsGrant(e) then 1 else 0)
  {
    match e
    case LoginMint(j, sub, sa) => GrantAddsOne(c, s, j, LoginToken(c, s, sub, sa));
    case SwitchMint(j, sub, company) => GrantAddsOne(c, s, j, SwitchToken(c, s, sub, company));
    case BeginRefresh(call, j) => BeginConserves(s, call, j, Rotating(j));
    case MintRefresh(call, j, sa) => MintRefreshConserves(c, s, call, j, sa);
    case BeginExit(call, j) => BeginConserves(s, call, j, TakingGlobal(j));
    case TakeGlobal(call) => TakeGlobalConserves(s, call);
    case TakeToken(call) => TakeTokenConserves(s, call);
    case MintExit(call, j, sa) => MintExitConserves(c, s, call, j, sa);
    case _ => PlainConserves(c, s, e);
  }

  /** Over any run, refreshes and exits never multiply sessions: each one beyond the first state was granted. */
  lemma {:induction false} SessionsAreGranted(c: Config, s: State, es: seq<Event>)
    requires Reachable(c, s)
    ensures Sessions(Run(c, s, es)) <= Sessions(s) + Grants(es)
  {
    if es != [] {
      var before := es[..|es| - 1];
      SessionsAreGranted(c, s, before);
      ReachableInv(c, s);
      RunKeeps(c, s, before);
      StepConserves(c, Run(c, s, before), es[|es| - 1]);
    }
  }
}
