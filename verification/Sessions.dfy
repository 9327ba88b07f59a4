/** Login sessions: rotating refresh tokens, access tokens bound to a session and to the
    user's token version, and every way of revoking them. Each operation is one atomic
    step with its own clock reading. */
module Sessions {
  import opened Shared

  datatype User = User(tokenVersion: nat, disabled: bool)

  /** A refresh token row. `token` is the hash of the token; `login` is a history
      column, the row the rotation started from. */
  datatype Row = Row(user: string, token: string, expiresAt: int, revokedAt: Option<int>, login: nat)

  /** The claims of an access token. */
  datatype Access = Access(sub: string, sid: Option<nat>, tv: Option<nat>, exp: int)

  /** `users` and `rows` are the tables. The rest is history: the next row id, all
      refresh tokens ever made, all access tokens ever signed, and how often each
      refresh token was exchanged. */
  datatype State = State(
    users: map<string, User>,
    rows: map<nat, Row>,
    nextId: nat,
    minted: set<string>,
    issued: set<Access>,
    exchanged: multiset<string>
  )

  datatype Config = Config(refreshTtl: int, accessTtl: int)

  predicate Live(row: Row, now: int) {
    row.revokedAt.None? && row.expiresAt > now
  }

  predicate SessionLive(s: State, sid: nat, now: int) {
    sid in s.rows && Live(s.rows[sid], now)
  }

  /** The checks on a signed token: expiry, version and session where claimed, user. */
  predicate Accepted(s: State, a: Access, now: int) {
    && now < a.exp
    && (a.tv.Some? ==> a.sub in s.users && s.users[a.sub].tokenVersion == a.tv.value)
    && (a.sid.Some? ==> SessionLive(s, a.sid.value, now))
    && a.sub in s.users && !s.users[a.sub].disabled
  }

  // ---------------------------------------------------------------------
  // The operations
  // ---------------------------------------------------------------------

  function Issue(s: State, c: Config, user: string, token: string, login: nat, now: int): State {
    s.(rows := s.rows[s.nextId := Row(user, token, now + c.refreshTtl, None, login)],
       nextId := s.nextId + 1, minted := s.minted + {token})
  }

  function Version(s: State, user: string): nat {
    if user in s.users then s.users[user].tokenVersion else 0
  }

  function Sign(s: State, c: Config, user: string, sid: nat, now: int): State {
    s.(issued := s.issued + {Access(user, Some(sid), Some(Version(s, user)), now + c.accessTtl)})
  }

  function SignIn(s: State, c: Config, user: string, token: string, now: int): State {
    if user !in s.users then s
    else Sign(Issue(s, c, user, token, s.nextId, now), c, user, s.nextId, now)
  }

  predicate Matches(row: Row, token: string, now: int) {
    row.token == token && Live(row, now)
  }

  /** The live row with this token; a row found by the query when there are several. */
  ghost function Find(rows: map<nat, Row>, token: string, now: int): (r: Option<nat>)
    ensures r.Some? ==> r.value in rows && Matches(rows[r.value], token, now)
    ensures r.None? ==> forall id :: id in rows ==> !Matches(rows[id], token, now)
  {
    if id: nat :| id in rows && Matches(rows[id], token, now) then Some(id) else None
  }

  function RevokeRow(row: Row, now: int): Row {
    row.(revokedAt := Some(now))
  }

  function RevokeRows(s: State, ids: set<nat>, now: int): State {
    s.(rows := map id | id in s.rows :: if id in ids then RevokeRow(s.rows[id], now) else s.rows[id])
  }

  ghost function Exchange(s: State, c: Config, raw: string, token: string, now: int): State {
    match Find(s.rows, raw, now)
    case None => s
    case Some(id) =>
      var row := s.rows[id];
      var next := Issue(RevokeRows(s, {id}, now), c, row.user, token, row.login, now);
      Sign(next, c, row.user, s.nextId, now).(exchanged := s.exchanged + multiset{raw})
  }

  function SessionsWith(s: State, token: string): set<nat> {
    set id | id in s.rows && s.rows[id].token == token && s.rows[id].revokedAt.None?
  }

  function Logout(s: State, raw: string, now: int): State {
    RevokeRows(s, SessionsWith(s, raw), now)
  }

  function Terminate(s: State, id: nat, now: int): State {
    RevokeRows(s, {id}, now)
  }

  /** The live sessions of a user, but for those to be kept. */
  function SessionsOf(s: State, user: string, keep: set<nat>, now: int): set<nat> {
    set id | id in s.rows && s.rows[id].user == user && Live(s.rows[id], now) && id !in keep
  }

  function TerminateAll(s: State, user: string, keep: set<nat>, now: int): State {
    RevokeRows(s, SessionsOf(s, user, keep, now), now)
  }

  function Bump(s: State, user: string): State {
    if user in s.users then
      s.(users := s.users[user := s.users[user].(tokenVersion := s.users[user].tokenVersion + 1)])
    else s
  }

  /** For a caller with session `sid` when the token names one. */
  function ChangePassword(s: State, c: Config, a: Access, now: int): State {
    if a.sid.Some? then
      Sign(Bump(TerminateAll(s, a.sub, {a.sid.value}, now), a.sub), c, a.sub, a.sid.value, now)
    else Bump(TerminateAll(s, a.sub, {}, now), a.sub)
  }

  /** The rows of a deleted user go with it. */
  function DeleteUser(s: State, user: string): State {
    s.(users := s.users - {user}, rows := map id | id in s.rows && s.rows[id].user != user :: s.rows[id])
  }

  function Disable(s: State, user: string, disabled: bool): State {
    if user in s.users then s.(users := s.users[user := s.users[user].(disabled := disabled)]) else s
  }

  datatype Event =
    | SignInEvent(user: string, token: string, now: int)
    | ExchangeEvent(raw: string, token: string, now: int)
    | LogoutEvent(raw: string, now: int)
    | TerminateEvent(id: nat, now: int)
    | TerminateAllEvent(user: string, keep: set<nat>, now: int)
    | BumpEvent(user: string)
    | PasswordEvent(access: Access, now: int)
    | DeleteEvent(user: string)
    | DisableEvent(user: string, disabled: bool)

  /** A password change is reached only with a token that was signed and is accepted. */
  ghost function Next(c: Config, s: State, e: Event): State {
    match e
    case SignInEvent(user, token, now) => SignIn(s, c, user, token, now)
    case ExchangeEvent(raw, token, now) => Exchange(s, c, raw, token, now)
    case LogoutEvent(raw, now) => Logout(s, raw, now)
    case TerminateEvent(id, now) => Terminate(s, id, now)
    case TerminateAllEvent(user, keep, now) => TerminateAll(s, user, keep, now)
    case BumpEvent(user) => Bump(s, user)
    case PasswordEvent(a, now) => if a in s.issued && Accepted(s, a, now) then ChangePassword(s, c, a, now) else s
    case DeleteEvent(user) => DeleteUser(s, user)
    case DisableEvent(user, disabled) => Disable(s, user, disabled)
  }

  ghost function After(c: Config, s: State, events: seq<Event>): State
    decreases |events|
  {
    if events == [] then s else After(c, Next(c, s, events[0]), events[1..])
  }

  /** One event more is one step more. */
  lemma {:induction false} RunGrows(c: Config, s: State, events: seq<Event>, e: Event)
    ensures After(c, s, []) == s && After(c, s, events + [e]) == Next(c, After(c, s, events), e)
    decreases |events|
  {
    hide Next;
    if events == [] {
      assert events + [e] == [e] && [e][1..] == [];
    } else {
      assert (events + [e])[1..] == events[1..] + [e];
      RunGrows(c, Next(c, s, events[0]), events[1..], e);
    }
  }

  /** New refresh tokens are random and never repeat an earlier one. */
  predicate FreshEvent(s: State, e: Event) {
    match e
    case SignInEvent(_, token, _) => token !in s.minted
    case ExchangeEvent(_, token, _) => token !in s.minted
    case _ => true
  }

  ghost predicate FreshRun(c: Config, s: State, events: seq<Event>)
    decreases |events|
  {
    events == [] || (FreshEvent(s, events[0]) && FreshRun(c, Next(c, s, events[0]), events[1..]))
  }

  // ---------------------------------------------------------------------
  // What every step keeps
  // ---------------------------------------------------------------------

  ghost predicate RowsFit(s: State) {
    forall id :: id in s.rows ==>
      && id < s.nextId && s.rows[id].login <= id
      && s.rows[id].user in s.users && s.rows[id].token in s.minted
  }

  /** No two rows have the same token. */
  ghost predicate TokensDistinct(s: State) {
    forall a, b :: a in s.rows && b in s.rows && s.rows[a].token == s.rows[b].token ==> a == b
  }

  /** In a rotation chain only the last row is not revoked. */
  ghost predicate ChainsRotate(s: State) {
    forall a, b :: a in s.rows && b in s.rows && s.rows[a].login == s.rows[b].login && a < b ==>
      s.rows[a].revokedAt.Some?
  }

  /** An exchanged token was exchanged once, and no row with it is usable. */
  ghost predicate ExchangedOnce(s: State) {
    forall t :: t in s.exchanged ==>
      && s.exchanged[t] == 1 && t in s.minted
      && forall id :: id in s.rows && s.rows[id].token == t ==> s.rows[id].revokedAt.Some?
  }

  /** Signed tokens name a session of their user and no later version. */
  ghost predicate TokensBound(s: State) {
    forall a :: a in s.issued ==>
      && a.sid.Some? && a.tv.Some? && a.sid.value < s.nextId
      && (a.sub in s.users ==> a.tv.value <= s.users[a.sub].tokenVersion)
      && (a.sid.value in s.rows ==> s.rows[a.sid.value].user == a.sub)
  }

  ghost predicate Valid(s: State) {
    RowsFit(s) && TokensDistinct(s) && ChainsRotate(s) && ExchangedOnce(s) && TokensBound(s)
  }

  lemma RevokeKeeps(s: State, ids: set<nat>, now: int)
    requires Valid(s)
    ensures Valid(RevokeRows(s, ids, now))
  {
    hide TokensDistinct, ChainsRotate, ExchangedOnce;
    var t := RevokeRows(s, ids, now);
    assert Revoked(s, t);
    RevokedDistinct(s, t);
    RevokedRotates(s, t);
    RevokedExchanged(s, t);
  }

  /** `t` is `s` with some more rows revoked. */
  ghost predicate Revoked(s: State, t: State) {
    && t.rows.Keys == s.rows.Keys && t.exchanged == s.exchanged && t.minted == s.minted
    && forall id :: id in t.rows ==>
      && t.rows[id].token == s.rows[id].token && t.rows[id].login == s.rows[id].login
      && (s.rows[id].revokedAt.Some? ==> t.rows[id].revokedAt.Some?)
  }

  lemma RevokedDistinct(s: State, t: State)
    requires Revoked(s, t) && TokensDistinct(s)
    ensures TokensDistinct(t)
  {
  }

  lemma RevokedRotates(s: State, t: State)
    requires Revoked(s, t) && ChainsRotate(s)
    ensures ChainsRotate(t)
  {
  }

  lemma RevokedExchanged(s: State, t: State)
    requires Revoked(s, t) && ExchangedOnce(s)
    ensures ExchangedOnce(t)
  {
  }

  /** A new row needs a fresh token, and its chain must be used up. */
  lemma IssueKeeps(s: State, c: Config, user: string, token: string, login: nat, now: int)
    requires Valid(s) && token !in s.minted && user in s.users && login <= s.nextId
    requires forall id :: id in s.rows && s.rows[id].login == login ==> s.rows[id].revokedAt.Some?
    ensures Valid(Issue(s, c, user, token, login, now))
  {
    hide TokensDistinct, ChainsRotate, ExchangedOnce;
    var t := Issue(s, c, user, token, login, now);
    assert forall id :: id in s.rows ==> id != s.nextId && t.rows[id] == s.rows[id];
    assert forall id :: id in t.rows && id != s.nextId ==> id in s.rows;
    IssueDistinct(s, t);
    IssueRotates(s, t);
    IssueExchanged(s, t);
  }

  /** `t` is `s` with one new row and its token. */
  ghost predicate OneMore(s: State, t: State) {
    && s.nextId !in s.rows && s.nextId in t.rows && t.rows == s.rows[s.nextId := t.rows[s.nextId]]
    && t.rows[s.nextId].token !in s.minted && t.minted == s.minted + {t.rows[s.nextId].token}
    && t.exchanged == s.exchanged
    && forall id :: id in s.rows ==> id < s.nextId && s.rows[id].token in s.minted
  }

  lemma IssueDistinct(s: State, t: State)
    requires OneMore(s, t) && TokensDistinct(s)
    ensures TokensDistinct(t)
  {
  }

  lemma IssueRotates(s: State, t: State)
    requires OneMore(s, t) && ChainsRotate(s)
    requires forall id :: id in s.rows && s.rows[id].login == t.rows[s.nextId].login ==> s.rows[id].revokedAt.Some?
    ensures ChainsRotate(t)
  {
  }

  lemma IssueExchanged(s: State, t: State)
    requires OneMore(s, t) && ExchangedOnce(s)
    ensures ExchangedOnce(t)
  {
  }

  lemma SignKeeps(s: State, c: Config, user: string, sid: nat, now: int)
    requires Valid(s) && user in s.users && sid < s.nextId
    requires sid in s.rows ==> s.rows[sid].user == user
    ensures Valid(Sign(s, c, user, sid, now))
  {
  }

  lemma SignInKeeps(s: State, c: Config, user: string, token: string, now: int)
    requires Valid(s) && token !in s.minted
    ensures Valid(SignIn(s, c, user, token, now))
  {
    hide TokensDistinct, ChainsRotate, ExchangedOnce, TokensBound;
    if user in s.users {
      IssueKeeps(s, c, user, token, s.nextId, now);
      SignKeeps(Issue(s, c, user, token, s.nextId, now), c, user, s.nextId, now);
    }
  }

  lemma ExchangeKeeps(s: State, c: Config, raw: string, token: string, now: int)
    requires Valid(s) && token !in s.minted
    ensures Valid(Exchange(s, c, raw, token, now))
  {
    var found := Find(s.rows, raw, now);
    if found.Some? {
      var id := found.value;
      var row := s.rows[id];
      var revoked := RevokeRows(s, {id}, now);
      RevokeKeeps(s, {id}, now);
      ChainUsedUp(s, id, now);
      IssueKeeps(revoked, c, row.user, token, row.login, now);
      var next := Issue(revoked, c, row.user, token, row.login, now);
      SignKeeps(next, c, row.user, s.nextId, now);
      CountKeeps(s, raw, id, Sign(next, c, row.user, s.nextId, now), now);
    }
  }

  /** The live row is the last of its chain, so revoking it uses the chain up. */
  lemma ChainUsedUp(s: State, id: nat, now: int)
    requires Valid(s) && id in s.rows && s.rows[id].revokedAt.None?
    ensures var t := RevokeRows(s, {id}, now);
      forall other :: other in t.rows && t.rows[other].login == s.rows[id].login ==> t.rows[other].revokedAt.Some?
  {
    hide TokensDistinct, ExchangedOnce, TokensBound;
    var t := RevokeRows(s, {id}, now);
    forall other | other in t.rows && t.rows[other].login == s.rows[id].login
      ensures t.rows[other].revokedAt.Some?
    {
      assert s.rows[other].login == s.rows[id].login;
    }
  }

  lemma CountKeeps(s: State, raw: string, id: nat, t: State, now: int)
    requires Valid(s) && Valid(t) && id in s.rows && Matches(s.rows[id], raw, now)
    requires t.exchanged == s.exchanged && s.minted <= t.minted
    requires id in t.rows && t.rows[id] == RevokeRow(s.rows[id], now)
    ensures Valid(t.(exchanged := s.exchanged + multiset{raw}))
  {
    hide RowsFit, ChainsRotate, TokensBound;
    var u := t.(exchanged := s.exchanged + multiset{raw});
    assert raw !in s.exchanged;
    assert raw in s.minted by {
      TokenMinted(s, id);
    }
    assert forall other :: other in t.rows && t.rows[other].token == raw ==> other == id;
    assert ExchangedOnce(u);
    SameRows(t, u);
  }

  lemma TokenMinted(s: State, id: nat)
    requires Valid(s) && id in s.rows
    ensures s.rows[id].token in s.minted
  {
  }

  lemma SameRows(t: State, u: State)
    requires Valid(t) && u == t.(exchanged := u.exchanged)
    ensures RowsFit(u) && TokensDistinct(u) && ChainsRotate(u) && TokensBound(u)
  {
  }

  lemma BumpKeeps(s: State, user: string)
    requires Valid(s)
    ensures Valid(Bump(s, user))
  {
  }

  lemma DeleteKeeps(s: State, user: string)
    requires Valid(s)
    ensures Valid(DeleteUser(s, user))
  {
  }

  lemma PasswordKeeps(s: State, c: Config, a: Access, now: int)
    requires Valid(s) && a in s.issued && Accepted(s, a, now)
    ensures Valid(ChangePassword(s, c, a, now))
  {
    hide RowsFit, TokensDistinct, ChainsRotate, ExchangedOnce, TerminateAll;
    var kept := {a.sid.value};
    var t := TerminateAll(s, a.sub, kept, now);
    TerminateAllKeeps(s, a.sub, kept, now);
    BumpKeeps(t, a.sub);
    SignKeeps(Bump(t, a.sub), c, a.sub, a.sid.value, now);
  }

  lemma TerminateAllKeeps(s: State, user: string, keep: set<nat>, now: int)
    requires Valid(s)
    ensures var t := TerminateAll(s, user, keep, now);
      && Valid(t) && t == s.(rows := t.rows) && t.rows.Keys == s.rows.Keys
  {
    hide Valid;
    RevokeKeeps(s, SessionsOf(s, user, keep, now), now);
  }

  lemma NextKeeps(c: Config, s: State, e: Event)
    requires Valid(s) && FreshEvent(s, e)
    ensures Valid(Next(c, s, e))
  {
    hide Valid, SignIn, Exchange, ChangePassword, DeleteUser, Bump, RevokeRows;
    match e
    case SignInEvent(user, token, now) => SignInKeeps(s, c, user, token, now);
    case ExchangeEvent(raw, token, now) => ExchangeKeeps(s, c, raw, token, now);
    case LogoutEvent(raw, now) => RevokeKeeps(s, SessionsWith(s, raw), now);
    case TerminateEvent(id, now) => RevokeKeeps(s, {id}, now);
    case TerminateAllEvent(user, keep, now) => RevokeKeeps(s, SessionsOf(s, user, keep, now), now);
    case BumpEvent(user) => BumpKeeps(s, user);
    case PasswordEvent(a, now) =>
      if a in s.issued && Accepted(s, a, now) {
        PasswordKeeps(s, c, a, now);
      }
    case DeleteEvent(user) => DeleteKeeps(s, user);
    case DisableEvent(user, disabled) => DisableKeeps(s, user, disabled);
  }

  lemma DisableKeeps(s: State, user: string, disabled: bool)
    requires Valid(s)
    ensures Valid(Disable(s, user, disabled))
  {
  }

  lemma {:induction false} AfterKeeps(c: Config, s: State, events: seq<Event>)
    requires Valid(s) && FreshRun(c, s, events)
    ensures Valid(After(c, s, events))
    decreases |events|
  {
    hide Valid, Next;
    if events != [] {
      NextKeeps(c, s, events[0]);
      AfterKeeps(c, Next(c, s, events[0]), events[1..]);
    }
  }

  // ---------------------------------------------------------------------
  // Rotation
  // ---------------------------------------------------------------------

  function Initial(users: map<string, User>): State {
    State(users, map[], 0, {}, {}, multiset{})
  }

  lemma InitialValid(users: map<string, User>)
    ensures Valid(Initial(users))
  {
  }

  /** Over any run each refresh token is exchanged at most once. */
  lemma ExchangedAtMostOnce(c: Config, users: map<string, User>, events: seq<Event>, token: string)
    requires FreshRun(c, Initial(users), events)
    ensures After(c, Initial(users), events).exchanged[token] <= 1
  {
    hide After, FreshRun;
    InitialValid(users);
    AfterKeeps(c, Initial(users), events);
  }

  /** Over any run each login has at most one live session at any time. */
  lemma OneLiveSessionPerLogin(c: Config, users: map<string, User>, events: seq<Event>, a: nat, b: nat, now: int)
    requires FreshRun(c, Initial(users), events)
    ensures var s := After(c, Initial(users), events);
      SessionLive(s, a, now) && SessionLive(s, b, now) && s.rows[a].login == s.rows[b].login ==> a == b
  {
    hide After, FreshRun;
    InitialValid(users);
    AfterKeeps(c, Initial(users), events);
  }

  // ---------------------------------------------------------------------
  // Revocation is final
  // ---------------------------------------------------------------------

  /** The session was opened and is not usable: its row is revoked or gone. */
  ghost predicate Closed(s: State, id: nat) {
    id < s.nextId && (id in s.rows ==> s.rows[id].revokedAt.Some?)
  }

  lemma ClosedNext(c: Config, s: State, e: Event, id: nat)
    requires Closed(s, id)
    ensures Closed(Next(c, s, e), id)
  {
    hide Accepted, Live, Find, SessionsOf, SessionsWith;
  }

  /** A session that is revoked or deleted is never live again. */
  lemma {:induction false} ClosedForGood(c: Config, s: State, events: seq<Event>, id: nat, now: int)
    requires Closed(s, id)
    ensures Closed(After(c, s, events), id) && !SessionLive(After(c, s, events), id, now)
    decreases |events|
  {
    hide Next;
    if events != [] {
      ClosedNext(c, s, events[0], id);
      ClosedForGood(c, Next(c, s, events[0]), events[1..], id, now);
    }
  }

  /** A logout, a termination and an exchange close the session at once: none of the
      access tokens bound to it is ever accepted again. */
  lemma ClosingKillsAccess(c: Config, s: State, e: Event, id: nat, a: Access, events: seq<Event>, now: int)
    requires Valid(s) && id in s.rows && a.sid == Some(id)
    requires match e
      case LogoutEvent(raw, _) => s.rows[id].token == raw
      case TerminateEvent(x, _) => x == id
      case ExchangeEvent(raw, _, at) => Matches(s.rows[id], raw, at)
      case DeleteEvent(user) => s.rows[id].user == user
      case _ => false
    ensures !Accepted(After(c, Next(c, s, e), events), a, now)
  {
    hide After, ChainsRotate, ExchangedOnce, TokensBound;
    assert Closed(Next(c, s, e), id);
    ClosedForGood(c, Next(c, s, e), events, id, now);
  }

  /** The user is gone, or has a later version. */
  ghost predicate Outdated(s: State, user: string, version: nat) {
    user in s.users ==> s.users[user].tokenVersion > version
  }

  lemma OutdatedNext(c: Config, s: State, e: Event, user: string, version: nat)
    requires Outdated(s, user, version)
    ensures Outdated(Next(c, s, e), user, version)
  {
    hide Accepted, Find, SessionsOf, SessionsWith;
  }

  lemma {:induction false} OutdatedForGood(c: Config, s: State, events: seq<Event>, user: string, version: nat)
    requires Outdated(s, user, version)
    ensures Outdated(After(c, s, events), user, version)
    decreases |events|
  {
    hide Next, Outdated;
    if events != [] {
      OutdatedNext(c, s, events[0], user, version);
      OutdatedForGood(c, Next(c, s, events[0]), events[1..], user, version);
    }
  }

  /** After a version bump no access token signed for the user before it is ever
      accepted again, whatever happens later. */
  lemma BumpKillsEarlier(c: Config, users: map<string, User>, before: seq<Event>, user: string,
                         after: seq<Event>, a: Access, now: int)
    requires FreshRun(c, Initial(users), before)
    requires a in After(c, Initial(users), before).issued && a.sub == user
    ensures !Accepted(After(c, Bump(After(c, Initial(users), before), user), after), a, now)
  {
    hide After, FreshRun, RowsFit, TokensDistinct, ChainsRotate, ExchangedOnce;
    var s := After(c, Initial(users), before);
    InitialValid(users);
    AfterKeeps(c, Initial(users), before);
    OutdatedForGood(c, Bump(s, user), after, user, a.tv.value);
  }

  /** An accepted token that was signed by the program is bound to a live session of
      its user and carries the user's current version. */
  lemma AcceptedIsBound(c: Config, users: map<string, User>, events: seq<Event>, a: Access, now: int)
    requires FreshRun(c, Initial(users), events)
    requires a in After(c, Initial(users), events).issued
    ensures var s := After(c, Initial(users), events);
      Accepted(s, a, now) <==>
      && now < a.exp && a.sub in s.users && !s.users[a.sub].disabled
      && a.tv == Some(s.users[a.sub].tokenVersion)
      && a.sid.Some? && SessionLive(s, a.sid.value, now) && s.rows[a.sid.value].user == a.sub
  {
    hide After, FreshRun, RowsFit, TokensDistinct, ChainsRotate, ExchangedOnce;
    InitialValid(users);
    AfterKeeps(c, Initial(users), events);
  }

  // ---------------------------------------------------------------------
  // Password change
  // ---------------------------------------------------------------------

  /** A password change closes every other session of the caller, outdates every token
      signed before, and leaves the caller with a token that is accepted. */
  lemma PasswordChangeKeepsOnlyCaller(c: Config, s: State, a: Access, now: int, b: Access, other: nat,
                                      events: seq<Event>, later: int)
    requires Valid(s) && c.accessTtl > 0
    requires a in s.issued && Accepted(s, a, now)
    ensures var t := Next(c, s, PasswordEvent(a, now));
      && (exists x :: x in t.issued && x.sub == a.sub && x.sid == a.sid && Accepted(t, x, now))
      && (SessionLive(t, other, now) && t.rows[other].user == a.sub ==> Some(other) == a.sid)
      && (b in s.issued && b.sub == a.sub ==> !Accepted(After(c, t, events), b, later))
  {
    hide After, RowsFit, TokensDistinct, ChainsRotate, ExchangedOnce;
    var t := Next(c, s, PasswordEvent(a, now));
    var renewed := Access(a.sub, a.sid, Some(Version(t, a.sub)), now + c.accessTtl);
    assert renewed in t.issued;
    assert t.rows[a.sid.value] == s.rows[a.sid.value];
    assert Accepted(t, renewed, now);
    if b in s.issued && b.sub == a.sub {
      assert Outdated(t, b.sub, b.tv.value);
      OutdatedForGood(c, t, events, b.sub, b.tv.value);
    }
  }

  // ---------------------------------------------------------------------
  // Nothing else is closed
  // ---------------------------------------------------------------------

  /** The event is aimed at the token: at its user, at its session, or at the refresh
      token its session carries. */
  ghost predicate Targets(s: State, e: Event, a: Access)
    requires a.sid.Some? && a.sid.value in s.rows
  {
    var row := s.rows[a.sid.value];
    match e
    case SignInEvent(_, _, _) => false
    case ExchangeEvent(raw, _, at) => row.token == raw && at < row.expiresAt
    case LogoutEvent(raw, _) => row.token == raw
    case TerminateEvent(id, _) => a.sid.value == id
    case TerminateAllEvent(user, keep, at) => a.sub == user && a.sid.value !in keep && at < row.expiresAt
    case BumpEvent(user) => a.sub == user
    case PasswordEvent(x, at) => a.sub == x.sub && x in s.issued && Accepted(s, x, at)
    case DeleteEvent(user) => a.sub == user
    case DisableEvent(user, disabled) => a.sub == user && disabled
  }

  /** A token that is accepted stays accepted exactly through the events that are not
      aimed at it; so nothing that concerns one user, session or refresh token closes
      the door on another. */
  lemma AcceptedUntilTargeted(c: Config, s: State, e: Event, a: Access, now: int)
    requires Valid(s) && a in s.issued && Accepted(s, a, now)
    ensures Accepted(Next(c, s, e), a, now) <==> !Targets(s, e, a)
  {
    hide ChainsRotate, ExchangedOnce;
    match e
    case ExchangeEvent(raw, token, at) => ExchangeTargets(c, s, raw, token, at, a, now);
    case _ =>
  }

  lemma ExchangeTargets(c: Config, s: State, raw: string, token: string, at: int, a: Access, now: int)
    requires Valid(s) && a in s.issued && Accepted(s, a, now)
    ensures Accepted(Exchange(s, c, raw, token, at), a, now) <==> !Targets(s, ExchangeEvent(raw, token, at), a)
  {
    hide ChainsRotate, ExchangedOnce;
    var found := Find(s.rows, raw, at);
    assert Matches(s.rows[a.sid.value], raw, at) <==> found == Some(a.sid.value);
    if found.Some? {
      assert Exchange(s, c, raw, token, at).rows[a.sid.value] ==
        if found.value == a.sid.value then RevokeRow(s.rows[a.sid.value], at) else s.rows[a.sid.value];
    }
  }

  // ---------------------------------------------------------------------
  // The program
  // ---------------------------------------------------------------------

  class Auth {
    const config: Config
    var users: map<string, User>
    var rows: map<nat, Row>
    var nextId: nat
    ghost var minted: set<string>
    ghost var issued: set<Access>
    ghost var exchanged: multiset<string>

    ghost function View(): State
      reads this
    {
      State(users, rows, nextId, minted, issued, exchanged)
    }

    constructor (config: Config, users: map<string, User>)
      ensures this.config == config && View() == Initial(users)
    {
      this.config := config;
      this.users := users;
      rows, nextId, minted, issued, exchanged := map[], 0, {}, {}, multiset{};
    }

    method IssueRefreshToken(user: string, token: string, login: nat, now: int) returns (id: nat)
      modifies this
      ensures id == old(nextId) && View() == Issue(old(View()), config, user, token, login, now)
      ensures rows == old(rows)[id := Row(user, token, now + config.refreshTtl, None, login)]
      ensures id < nextId && minted == old(minted) + {token}
    {
      id := nextId;
      rows := rows[id := Row(user, token, now + config.refreshTtl, None, login)];
      nextId := nextId + 1;
      minted := minted + {token};
    }

    /** The update of all rows among `ids`. */
    method SetRevoked(ids: set<nat>, now: int)
      modifies this`rows
      ensures View() == RevokeRows(old(View()), ids, now)
      ensures rows.Keys == old(rows).Keys
      ensures forall id :: id in rows ==>
        rows[id] == if id in ids then old(rows)[id].(revokedAt := Some(now)) else old(rows)[id]
    {
      rows := map id | id in rows :: if id in ids then rows[id].(revokedAt := Some(now)) else rows[id];
    }

    /** The user and the new session, or nothing when no live row has the token. */
    method RotateRefreshToken(raw: string, token: string, now: int) returns (r: Option<(string, nat)>)
      requires TokensDistinct(View())
      modifies this
      ensures match Find(old(rows), raw, now)
        case None => r.None? && View() == old(View())
        case Some(id) =>
          && r == Some((old(rows)[id].user, old(nextId)))
          && var row := old(rows)[id];
            View() == Issue(RevokeRows(old(View()), {id}, now), config, row.user, token, row.login, now)
      ensures r.Some? ==> exists id ::
        && id in old(rows)
        && var row := old(rows)[id];
          && row.token == raw && row.revokedAt.None? && now < row.expiresAt
          && rows == old(rows)[id := row.(revokedAt := Some(now))]
                     [old(nextId) := Row(row.user, token, now + config.refreshTtl, None, row.login)]
    {
      if !exists id | id in rows :: Matches(rows[id], raw, now) {
        return None;
      }
      var id :| id in rows && Matches(rows[id], raw, now);
      assert Find(rows, raw, now) == Some(id);
      var row := rows[id];
      SetRevoked({id}, now);
      var sid := IssueRefreshToken(row.user, token, row.login, now);
      r := Some((row.user, sid));
    }

    method RevokeRefreshToken(raw: string, now: int)
      modifies this`rows
      ensures View() == Logout(old(View()), raw, now)
      ensures rows.Keys == old(rows).Keys
      ensures forall id :: id in rows ==>
        rows[id] == if old(rows)[id].token == raw && old(rows)[id].revokedAt.None?
                    then old(rows)[id].(revokedAt := Some(now)) else old(rows)[id]
    {
      SetRevoked(set id: nat | id in rows && rows[id].token == raw && rows[id].revokedAt.None? :: id, now);
    }

    method BumpTokenVersion(user: string)
      modifies this`users
      ensures View() == Bump(old(View()), user)
      ensures user in users ==> users[user].tokenVersion == old(users)[user].tokenVersion + 1
      ensures forall u :: u in users && u != user ==> users[u] == old(users)[u]
    {
      if user in users {
        users := users[user := users[user].(tokenVersion := users[user].tokenVersion + 1)];
      }
    }

    method IsSessionLive(sid: nat, now: int) returns (live: bool)
      ensures live <==> SessionLive(View(), sid, now)
    {
      live := sid in rows && rows[sid].revokedAt.None? && rows[sid].expiresAt > now;
    }

    method TerminateSession(id: nat, now: int) returns (found: bool)
      modifies this`rows
      ensures View() == Terminate(old(View()), id, now) && (found <==> id in old(rows))
      ensures rows == if found then old(rows)[id := old(rows)[id].(revokedAt := Some(now))] else old(rows)
    {
      found := id in rows;
      SetRevoked({id}, now);
    }

    /** All live sessions of the user, but for the one with the given id, if any. */
    method TerminateSessions(user: string, except: Option<nat>, now: int) returns (count: nat)
      modifies this`rows
      ensures var keep := if except.Some? then {except.value} else {};
        View() == TerminateAll(old(View()), user, keep, now)
      ensures rows.Keys == old(rows).Keys
      ensures forall id :: id in rows ==>
        var row := old(rows)[id];
        rows[id] == if row.user == user && row.revokedAt.None? && now < row.expiresAt && except != Some(id)
                    then row.(revokedAt := Some(now)) else row
      ensures count == |set id | id in rows && rows[id] != old(rows)[id]|
    {
      var ids := set id: nat | id in rows && rows[id].user == user && Matches(rows[id], rows[id].token, now) &&
                               except != Some(id) :: id;
      ghost var keep := if except.Some? then {except.value} else {};
      assert ids == SessionsOf(View(), user, keep, now);
      SetRevoked(ids, now);
      assert ids == set id | id in rows && rows[id] != old(rows)[id];
      count := |ids|;
    }

    /** The access rule for a token whose signature is right. */
    method Authenticate(a: Access, now: int) returns (ok: bool)
      ensures ok <==> Accepted(View(), a, now)
      ensures ok <==>
        && now < a.exp && a.sub in users && !users[a.sub].disabled
        && (a.tv.Some? ==> users[a.sub].tokenVersion == a.tv.value)
        && (a.sid.Some? ==>
              a.sid.value in rows && rows[a.sid.value].revokedAt.None? && now < rows[a.sid.value].expiresAt)
    {
      if now >= a.exp {
        return false;
      }
      if a.tv.Some? {
        if a.sub !in users || users[a.sub].tokenVersion != a.tv.value {
          return false;
        }
      }
      if a.sid.Some? {
        var live := IsSessionLive(a.sid.value, now);
        if !live {
          return false;
        }
      }
      ok := a.sub in users && !users[a.sub].disabled;
    }

    method SignAccess(user: string, sid: nat, tv: nat, now: int) returns (a: Access)
      modifies this`issued
      ensures a == Access(user, Some(sid), Some(tv), now + config.accessTtl)
      ensures View() == old(View()).(issued := old(issued) + {a})
    {
      a := Access(user, Some(sid), Some(tv), now + config.accessTtl);
      issued := issued + {a};
    }

    /** The end of a login, once all checks have been passed. */
    method Login(user: string, token: string, now: int) returns (a: Access)
      requires user in users
      modifies this
      ensures View() == SignIn(old(View()), config, user, token, now)
      ensures a == Access(user, Some(old(nextId)), Some(users[user].tokenVersion), now + config.accessTtl)
      ensures users == old(users) && issued == old(issued) + {a}
      ensures rows == old(rows)[old(nextId) := Row(user, token, now + config.refreshTtl, None, old(nextId))]
      ensures config.accessTtl > 0 && config.refreshTtl > 0 && !users[user].disabled ==> Accepted(View(), a, now)
    {
      var sid := IssueRefreshToken(user, token, nextId, now);
      a := SignAccess(user, sid, users[user].tokenVersion, now);
    }

    method Refresh(raw: string, token: string, now: int) returns (r: Option<Access>)
      requires TokensDistinct(View())
      modifies this
      ensures View() == Exchange(old(View()), config, raw, token, now)
      ensures r.Some? <==> Find(old(rows), raw, now).Some?
      ensures r.Some? ==>
        && issued == old(issued) + {r.value} && r.value.sid == Some(old(nextId)) && old(nextId) in rows
        && r.value.sub == rows[old(nextId)].user && r.value.exp == now + config.accessTtl
        && r.value.tv == Some(if r.value.sub in users then users[r.value.sub].tokenVersion else 0)
      ensures users == old(users)
      ensures exchanged == if r.Some? then old(exchanged) + multiset{raw} else old(exchanged)
      ensures r.Some? <==> exists id ::
        id in old(rows) && old(rows)[id].token == raw && old(rows)[id].revokedAt.None? && now < old(rows)[id].expiresAt
    {
      var rotated := RotateRefreshToken(raw, token, now);
      if rotated.None? {
        return None;
      }
      var (user, sid) := rotated.value;
      var tv := if user in users then users[user].tokenVersion else 0;
      var a := SignAccess(user, sid, tv, now);
      exchanged := exchanged + multiset{raw};
      r := Some(a);
    }

    /** The end of a password change by the caller with token `a`. */
    method PasswordChanged(a: Access, now: int)
      modifies this
      ensures View() == ChangePassword(old(View()), config, a, now)
      ensures rows.Keys == old(rows).Keys
      ensures forall id :: id in rows ==>
        var row := old(rows)[id];
        rows[id] == if row.user == a.sub && row.revokedAt.None? && now < row.expiresAt && a.sid != Some(id)
                    then row.(revokedAt := Some(now)) else row
      ensures forall u :: u in users && u != a.sub ==> users[u] == old(users)[u]
      ensures a.sub in users ==> users[a.sub] == old(users)[a.sub].(tokenVersion := old(users)[a.sub].tokenVersion + 1)
      ensures issued == old(issued) +
        (if a.sid.None? then {}
         else var tv := if a.sub in users then users[a.sub].tokenVersion else 0;
           {Access(a.sub, a.sid, Some(tv), now + config.accessTtl)})
    {
      var _ := TerminateSessions(a.sub, a.sid, now);
      BumpTokenVersion(a.sub);
      if a.sid.Some? {
        var tv := if a.sub in users then users[a.sub].tokenVersion else 0;
        var _ := SignAccess(a.sub, a.sid.value, tv, now);
      }
    }
  }
}
