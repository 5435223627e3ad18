/**
 Refresh-token rotation of auth-service (auth/auth.service.ts).

 Redis holds one key per live refresh token and one key per user for the token that exit-company
 restores. Requests run interleaved: `Step` is one Redis command or one token issue, and a request
 may fail between any two of them. Answers of user-service, org-service and the credential table
 are the choice between a failing step and the next one.
 */
module AuthTokens {

  datatype Key = RefreshKey(sub: nat, jti: nat) | GlobalKey(sub: nat)

  /** `value` is the stored jti of a global key; refresh keys hold a constant. */
  datatype Entry = Entry(value: nat, expiresAt: int)

  datatype Origin = Login | Switch | Rotation(parent: nat) | Exit(companyJti: nat, globalJti: nat)

  /** The claims of a token pair; an empty company is an absent claim. */
  datatype Token = Token(sub: nat, company: string, superAdmin: bool, exp: int, via: Origin)

  /** What a request in flight has done so far. */
  datatype Call =
    | Rotating(jti: nat)                     // refresh: token consumed
    | Reading(sub: nat)                      // refresh: company-scoped pair issued
    | Touching(pending: set<Key>)            // refresh: expiries still to extend
    | TakingGlobal(jti: nat)                 // exit: company token consumed
    | TakingToken(jti: nat, stored: nat)     // exit: saved jti taken
    | Restoring(jti: nat, stored: nat)       // exit: both tokens consumed

  /** Redis and JWT lifetimes are configured by the same duration but parsed apart. */
  datatype Config = Config(redisTtl: int, jwtTtl: int)

  /** `deadline` is the last expiry Redis was given for a refresh key; it, `consumed` and `revoked` only record. */
  datatype State = State(now: int, store: map<Key, Entry>, calls: map<nat, Call>, issued: map<nat, Token>,
                         deadline: map<nat, int>, consumed: set<nat>, revoked: set<nat>)

  datatype Event =
    | Tick(elapsed: nat)
    | LoginMint(jti: nat, sub: nat, superAdmin: bool)
    | SwitchMint(jti: nat, sub: nat, company: string)
    | SaveGlobal(sub: nat, jti: nat)                  // the jti is decoded, not verified
    | BeginRefresh(call: nat, token: nat)
    | MintRefresh(call: nat, jti: nat, superAdmin: bool)
    | ReadGlobal(call: nat)
    | Extend(call: nat, key: Key)
    | BeginExit(call: nat, token: nat)
    | TakeGlobal(call: nat)
    | TakeToken(call: nat)
    | MintExit(call: nat, jti: nat, superAdmin: bool)
    | Fail(call: nat)
    | Revoke(sub: nat, jti: nat)
    | Evict(key: Key)

  // Redis commands

  predicate Visible(s: State, k: Key) { k in s.store && s.now < s.store[k].expiresAt }

  /** GETDEL. */
  function Take(s: State, k: Key): State {
    s.(store := s.store - {k},
       consumed := if k.RefreshKey? && Visible(s, k) then s.consumed + {k.jti} else s.consumed)
  }

  /** DEL. */
  function Delete(s: State, k: Key): State {
    s.(store := s.store - {k},
       revoked := if k.RefreshKey? && Visible(s, k) then s.revoked + {k.jti} else s.revoked)
  }

  /** EXPIRE: does nothing to a key that is gone. */
  function Touch(c: Config, s: State, k: Key): State {
    if !Visible(s, k) then s
    else s.(store := s.store[k := Entry(s.store[k].value, s.now + c.redisTtl)],
            deadline := if k.RefreshKey? then s.deadline[k.jti := s.now + c.redisTtl] else s.deadline)
  }

  /** Signs a pair under a new random jti and stores it with SETEX. */
  function Mint(c: Config, s: State, jti: nat, t: Token): State {
    s.(store := s.store[RefreshKey(t.sub, jti) := Entry(1, s.now + c.redisTtl)],
       issued := s.issued[jti := t],
       deadline := s.deadline[jti := s.now + c.redisTtl])
  }

  // Requests

  predicate Presentable(s: State, jti: nat) { jti in s.issued && s.now < s.issued[jti].exp }

  function Put(s: State, call: nat, c: Call): State { s.(calls := s.calls[call := c]) }

  function End(s: State, call: nat): State { s.(calls := s.calls - {call}) }

  /** Verifies the token, then consumes it; only the request that got the value goes on. */
  function Begin(s: State, call: nat, jti: nat, next: Call): State {
    if call in s.calls || !Presentable(s, jti) then s
    else
      var k := RefreshKey(s.issued[jti].sub, jti);
      if Visible(s, k) then Put(Take(s, k), call, next) else Take(s, k)
  }

  function LoginToken(c: Config, s: State, sub: nat, superAdmin: bool): Token {
    Token(sub, "", superAdmin, s.now + c.jwtTtl, Login)
  }

  function SwitchToken(c: Config, s: State, sub: nat, company: string): Token {
    Token(sub, company, false, s.now + c.jwtTtl, Switch)
  }

  /** Rotation keeps subject and company; the super-admin claim only goes into global tokens. */
  function Rotated(c: Config, s: State, parent: nat, superAdmin: bool): Token
    requires parent in s.issued
  {
    var p := s.issued[parent];
    Token(p.sub, p.company, p.company == "" && superAdmin, s.now + c.jwtTtl, Rotation(parent))
  }

  function Restored(c: Config, s: State, jti: nat, stored: nat, superAdmin: bool): Token
    requires jti in s.issued
  {
    Token(s.issued[jti].sub, "", superAdmin, s.now + c.jwtTtl, Exit(jti, stored))
  }

  function Step(c: Config, s: State, e: Event): State {
    match e
    case Tick(d) => StepTick(s, d)
    case LoginMint(j, sub, sa) => StepGrant(c, s, j, LoginToken(c, s, sub, sa))
    case SwitchMint(j, sub, company) => StepGrant(c, s, j, SwitchToken(c, s, sub, company))
    case SaveGlobal(sub, j) => StepSaveGlobal(c, s, sub, j)
    case BeginRefresh(call, j) => Begin(s, call, j, Rotating(j))
    case MintRefresh(call, j, sa) => StepMintRefresh(c, s, call, j, sa)
    case ReadGlobal(call) => StepReadGlobal(s, call)
    case Extend(call, k) => StepExtend(c, s, call, k)
    case BeginExit(call, j) => Begin(s, call, j, TakingGlobal(j))
    case TakeGlobal(call) => StepTakeGlobal(s, call)
    case TakeToken(call) => StepTakeToken(s, call)
    case MintExit(call, j, sa) => StepMintExit(c, s, call, j, sa)
    case Fail(call) => End(s, call)
    case Revoke(sub, j) => Delete(s, RefreshKey(sub, j))
    case Evict(k) => StepEvict(s, k)
  }

  function StepTick(s: State, elapsed: nat): State { s.(now := s.now + elapsed) }

  function StepGrant(c: Config, s: State, j: nat, t: Token): State {
    if j in s.issued then s else Mint(c, s, j, t)
  }

  function StepMintRefresh(c: Config, s: State, call: nat, j: nat, sa: bool): State {
    if call in s.calls && s.calls[call].Rotating? && s.calls[call].jti in s.issued && j !in s.issued then
      var t := Rotated(c, s, s.calls[call].jti, sa);
      var minted := Mint(c, End(s, call), j, t);
      if t.company == "" then minted else Put(minted, call, Reading(t.sub))
    else s
  }

  function StepMintExit(c: Config, s: State, call: nat, j: nat, sa: bool): State {
    if call in s.calls && s.calls[call].Restoring? && s.calls[call].jti in s.issued && j !in s.issued then
      Mint(c, End(s, call), j, Restored(c, s, s.calls[call].jti, s.calls[call].stored, sa))
    else s
  }

  /** SET with NX: the first saved context stays. */
  function StepSaveGlobal(c: Config, s: State, sub: nat, j: nat): State {
    if Visible(s, GlobalKey(sub)) then s
    else s.(store := s.store[GlobalKey(sub) := Entry(j, s.now + c.redisTtl)])
  }

  /** Redis drops a key that ran out. */
  function StepEvict(s: State, k: Key): State {
    if Visible(s, k) then s else s.(store := s.store - {k})
  }

  function StepExtend(c: Config, s: State, call: nat, k: Key): State {
    if call in s.calls && s.calls[call].Touching? && k in s.calls[call].pending then
      Put(Touch(c, s, k), call, Touching(s.calls[call].pending - {k}))
    else s
  }

  function StepReadGlobal(s: State, call: nat): State {
    if call in s.calls && s.calls[call].Reading? then
      var k := GlobalKey(s.calls[call].sub);
      if Visible(s, k) then Put(s, call, Touching({k, RefreshKey(k.sub, s.store[k].value)})) else End(s, call)
    else s
  }

  function StepTakeGlobal(s: State, call: nat): State {
    if call in s.calls && s.calls[call].TakingGlobal? && s.calls[call].jti in s.issued then
      var k := GlobalKey(s.issued[s.calls[call].jti].sub);
      if Visible(s, k) then Put(Take(s, k), call, TakingToken(s.calls[call].jti, s.store[k].value))
      else End(Take(s, k), call)
    else s
  }

  function StepTakeToken(s: State, call: nat): State {
    if call in s.calls && s.calls[call].TakingToken? && s.calls[call].jti in s.issued then
      var k := RefreshKey(s.issued[s.calls[call].jti].sub, s.calls[call].stored);
      if Visible(s, k) then Put(Take(s, k), call, Restoring(s.calls[call].jti, k.jti))
      else End(Take(s, k), call)
    else s
  }

  function Run(c: Config, s: State, es: seq<Event>): State {
    if es == [] then s else Step(c, Run(c, s, es[..|es| - 1]), es[|es| - 1])
  }

  ghost predicate Initial(s: State) {
    s.store == map[] && s.calls == map[] && s.issued == map[] && s.deadline == map[]
    && s.consumed == {} && s.revoked == {}
  }

  // Fates

  datatype Fate = Live | Consumed | Expired | Revoked

  /** The key of the token is in Redis and has not run out. */
  predicate IsLive(s: State, jti: nat)
    requires jti in s.issued
  {
    Visible(s, RefreshKey(s.issued[jti].sub, jti))
  }

  ghost predicate HasFate(s: State, jti: nat, f: Fate)
    requires jti in s.issued && jti in s.deadline
  {
    match f
    case Live => IsLive(s, jti)
    case Consumed => jti in s.consumed
    case Revoked => jti in s.revoked
    case Expired => jti !in s.consumed + s.revoked && s.deadline[jti] <= s.now
  }

  /** The tokens a token was exchanged for. */
  function Parents(t: Token): set<nat> {
    match t.via
    case Rotation(p) => {p}
    case Exit(j, g) => {j, g}
    case _ => {}
  }
}
