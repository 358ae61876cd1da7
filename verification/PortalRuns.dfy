/** Safety of the portal's authentication over whole runs of requests. */
module PortalRuns {
  import opened Common
  import opened Portal

  /** A request and the reading of the clock it is handled at. */
  datatype Event = Event(request: Request, now: real)

  ghost predicate IsRun(evs: seq<Event>, ss: seq<State>, replies: seq<Reply>) {
    && |ss| == |evs| + 1 && |replies| == |evs| && ss[0] == INITIAL
    && (forall i, j :: 0 <= i < j < |evs| ==> evs[i].now <= evs[j].now)
    && forall i :: 0 <= i < |evs| ==> (ss[i + 1], replies[i]) == Handle(ss[i], evs[i].request, evs[i].now)
  }

  lemma At(evs: seq<Event>, ss: seq<State>, replies: seq<Reply>, i: nat)
    requires IsRun(evs, ss, replies) && i < |evs|
    ensures Handle(ss[i], evs[i].request, evs[i].now) == (ss[i + 1], replies[i])
  {
    hide Handle;
    assert ss[i + 1] == ss[i + 1];
  }

  /** At step `i` the owner unbinds a row of the account `chat`. */
  ghost predicate Bumps(evs: seq<Event>, ss: seq<State>, i: nat, chat: int)
    requires i < |evs| && i < |ss|
  {
    && evs[i].request.Unbind? && evs[i].request.row in ss[i].rows
    && ss[i].rows[evs[i].request.row].chat == Some(chat)
  }

  // ----- epochs -----

  ghost predicate EpochsBehind(s: State) {
    forall t :: t in s.sessions ==> t.epoch <= CurrentEpoch(s.epochs, t.chat)
  }

  lemma HandleEpochs(s: State, r: Request, now: real, chat: int)
    ensures var s' := Handle(s, r, now).0;
            && (EpochsBehind(s) ==> EpochsBehind(s'))
            && s.sessions <= s'.sessions
            && CurrentEpoch(s'.epochs, chat) == CurrentEpoch(s.epochs, chat)
               + (if r.Unbind? && r.row in s.rows && s.rows[r.row].chat == Some(chat) then 1 else 0)
  {
    hide Bound, Owns, Expiry, Unpruned, Unexpired;
  }

  /** No session token is ever ahead of its account's epoch. */
  lemma {:induction false} NeverAhead(evs: seq<Event>, ss: seq<State>, replies: seq<Reply>, i: nat)
    requires IsRun(evs, ss, replies) && i <= |evs|
    ensures EpochsBehind(ss[i])
  {
    hide Handle, EpochsBehind;
    if i == 0 {
      assert EpochsBehind(INITIAL) by { InitialBehind(); }
    } else {
      NeverAhead(evs, ss, replies, i - 1);
      HandleEpochs(ss[i - 1], evs[i - 1].request, evs[i - 1].now, 0);
    }
  }

  lemma InitialBehind()
    ensures EpochsBehind(INITIAL)
  {
  }

  /** Between two points of a run an account's epoch grows by the number of its
      unbindings by the owner; the bot's removal of a link is none. */
  ghost function Bumped(evs: seq<Event>, ss: seq<State>, i: nat, j: nat, chat: int): nat
    requires i <= j <= |evs| < |ss|
  {
    if i == j then 0
    else Bumped(evs, ss, i, j - 1, chat) + (if Bumps(evs, ss, j - 1, chat) then 1 else 0)
  }

  lemma {:induction false} EpochCounts(evs: seq<Event>, ss: seq<State>, replies: seq<Reply>, i: nat, j: nat, chat: int)
    requires IsRun(evs, ss, replies) && i <= j <= |evs|
    ensures CurrentEpoch(ss[j].epochs, chat) == CurrentEpoch(ss[i].epochs, chat) + Bumped(evs, ss, i, j, chat)
    ensures ss[i].sessions <= ss[j].sessions
    ensures Bumped(evs, ss, i, j, chat) == 0 <==> forall k :: i <= k < j ==> !Bumps(evs, ss, k, chat)
  {
    hide Handle;
    if i < j {
      EpochCounts(evs, ss, replies, i, j - 1, chat);
      HandleEpochs(ss[j - 1], evs[j - 1].request, evs[j - 1].now, chat);
    }
  }

  /** After an unbinding by the owner, no session token the account had before is ever accepted or renewed
      again. */
  lemma Revoked(evs: seq<Event>, ss: seq<State>, replies: seq<Reply>, i: nat, j: nat, t: SessionToken)
    requires IsRun(evs, ss, replies) && i < j < |evs|
    requires t in ss[i].sessions && Bumps(evs, ss, i, t.chat)
    requires evs[j].request == Access(t) || evs[j].request == Refresh(t)
    ensures replies[j] == Denied
  {
    NeverAhead(evs, ss, replies, i);
    At(evs, ss, replies, j);
    EpochCounts(evs, ss, replies, i, j, t.chat);
  }

  /** A token issued at step `i` is accepted at step `j` exactly when it has not expired, some row is
      bound to its account then, and the owner unbound no row of the account in between. */
  lemma AcceptedIff(evs: seq<Event>, ss: seq<State>, replies: seq<Reply>, i: nat, j: nat, t: SessionToken)
    requires IsRun(evs, ss, replies) && i < j < |evs|
    requires replies[i] == Session(t) && evs[j].request == Access(t)
    ensures t.exp == Expiry(evs[i].now, SESSION_TTL)
    ensures replies[j] == Accepted
            <==> Unexpired(t.exp, evs[j].now) && Bound(ss[j].rows, t.chat)
                 && forall k :: i < k < j ==> !Bumps(evs, ss, k, t.chat)
  {
    At(evs, ss, replies, i);
    At(evs, ss, replies, j);
    Issued(ss[i], evs[i].request, evs[i].now, t);
    EpochCounts(evs, ss, replies, i + 1, j, t.chat);
  }

  /** A removal in the bot revokes nothing: a session that worked before works after it exactly if another
      row is still bound to its account. */
  lemma RemovalRevokesNothing(evs: seq<Event>, ss: seq<State>, replies: seq<Reply>, i: nat, row: int, t: SessionToken)
    requires IsRun(evs, ss, replies) && i + 1 < |evs|
    requires evs[i].request == RemoveLink(t.chat, row) && replies[i] == Done
    requires Authenticates(ss[i], t, evs[i].now) && evs[i + 1].request == Access(t)
    ensures replies[i + 1] == Accepted
            <==> Unexpired(t.exp, evs[i + 1].now)
                 && exists id :: id != row && id in ss[i].rows && ss[i].rows[id].chat == Some(t.chat)
  {
    At(evs, ss, replies, i);
    At(evs, ss, replies, i + 1);
    if id :| id != row && id in ss[i].rows && ss[i].rows[id].chat == Some(t.chat) {
      assert id in ss[i + 1].rows && ss[i + 1].rows[id].chat == Some(t.chat);
    }
  }

  lemma Issued(s: State, r: Request, now: real, t: SessionToken)
    requires Handle(s, r, now).1 == Session(t)
    ensures t in Handle(s, r, now).0.sessions && t == NewSession(s, t.chat, now)
    ensures Handle(s, r, now).0.epochs == s.epochs
  {
    hide Bound, Owns, Expiry, Unpruned;
  }

  // ----- nonces -----

  /** Step `i` consumed the nonce `key`. */
  ghost predicate Consumes(evs: seq<Event>, replies: seq<Reply>, i: nat, key: string)
    requires i < |evs| && i < |replies|
  {
    && replies[i].Session?
    && match evs[i].request
       case Exchange(t) => t.jti != "" && t.jti == key
       case TelegramLogin(_, p) => p.hash == key
       case _ => false
  }

  /** The nonce `key` blocks requests at time `now`. */
  predicate Held(nonces: map<string, real>, key: string, now: real) {
    key in nonces && nonces[key] >= now
  }

  lemma HandleNonces(s: State, r: Request, now: real, key: string, later: real)
    requires now <= later
    ensures var (s', reply) := Handle(s, r, now);
            var consumed := reply.Session?
              && ((r.Exchange? && r.login.jti != "" && r.login.jti == key)
                  || (r.TelegramLogin? && r.payload.hash == key));
            && (consumed ==> s'.nonces == Unpruned(s.nonces, now)[key := now + LOGIN_TTL] && !Held(s.nonces, key, now))
            && (!consumed ==> Held(s'.nonces, key, later) == Held(s.nonces, key, later))
  {
    hide Bound, Owns, Expiry;
  }

  /** A nonce blocks a request exactly when it was consumed at most 900 seconds earlier, although
      expired nonces are pruned all the time. */
  lemma {:induction false} HeldIff(evs: seq<Event>, ss: seq<State>, replies: seq<Reply>, i: nat, key: string, now: real)
    requires IsRun(evs, ss, replies) && i <= |evs| && forall k :: 0 <= k < i ==> evs[k].now <= now
    ensures Held(ss[i].nonces, key, now)
            <==> exists k :: 0 <= k < i && Consumes(evs, replies, k, key) && evs[k].now + LOGIN_TTL >= now
  {
    hide Handle, Unpruned;
    if i > 0 {
      HeldIff(evs, ss, replies, i - 1, key, now);
      HandleNonces(ss[i - 1], evs[i - 1].request, evs[i - 1].now, key, now);
      if Consumes(evs, replies, i - 1, key) {
        HeldIff(evs, ss, replies, i - 1, key, evs[i - 1].now);
      }
    }
  }

  lemma HandleLogins(s: State, r: Request, now: real)
    ensures var s' := Handle(s, r, now).0;
            forall t :: t in s'.logins && t !in s.logins ==> t.exp as real <= now + LOGIN_TTL
  {
    hide Bound, Owns, Unpruned;
  }

  lemma {:induction false} LoginsExpire(evs: seq<Event>, ss: seq<State>, replies: seq<Reply>, i: nat, t: LoginToken)
    requires IsRun(evs, ss, replies) && i < |evs| && t in ss[i].logins
    ensures t.exp as real <= evs[i].now + LOGIN_TTL
  {
    hide Handle;
    if i > 0 {
      HandleLogins(ss[i - 1], evs[i - 1].request, evs[i - 1].now);
      if t in ss[i - 1].logins { LoginsExpire(evs, ss, replies, i - 1, t); }
    }
  }

  /** When exactly an exchange succeeds. */
  lemma ExchangeIff(evs: seq<Event>, ss: seq<State>, replies: seq<Reply>, j: nat, t: LoginToken)
    requires IsRun(evs, ss, replies) && j < |evs| && evs[j].request == Exchange(t)
    ensures replies[j].Session?
            <==> && t in ss[j].logins && Unexpired(t.exp, evs[j].now) && Bound(ss[j].rows, t.chat)
                 && (t.jti == "" || forall k :: 0 <= k < j && Consumes(evs, replies, k, t.jti)
                                                ==> evs[k].now + LOGIN_TTL < evs[j].now)
  {
    At(evs, ss, replies, j);
    HeldIff(evs, ss, replies, j, t.jti, evs[j].now);
  }

  /** A login link that carries a jti is exchanged successfully at most once. */
  lemma LoginOnce(evs: seq<Event>, ss: seq<State>, replies: seq<Reply>, i: nat, j: nat, t: LoginToken)
    requires IsRun(evs, ss, replies) && i < j < |evs|
    requires evs[i].request == Exchange(t) && evs[j].request == Exchange(t) && t.jti != ""
    requires replies[i].Session?
    ensures replies[j] == Denied
  {
    At(evs, ss, replies, i);
    At(evs, ss, replies, j);
    ExchangeIff(evs, ss, replies, j, t);
    assert Consumes(evs, replies, i, t.jti);
    assert t in ss[i].logins;
    LoginsExpire(evs, ss, replies, i, t);
  }

  /** A Telegram payload dated no later than its first use is accepted at most once. */
  lemma TelegramOnce(evs: seq<Event>, ss: seq<State>, replies: seq<Reply>, i: nat, j: nat, u1: string, u2: string,
                     p: Payload)
    requires IsRun(evs, ss, replies) && i < j < |evs|
    requires evs[i].request == TelegramLogin(u1, p) && evs[j].request == TelegramLogin(u2, p)
    requires replies[i].Session? && p.authDate as real <= evs[i].now
    ensures replies[j] == Denied
  {
    assert Consumes(evs, replies, i, p.hash);
    At(evs, ss, replies, i);
    At(evs, ss, replies, j);
    HeldIff(evs, ss, replies, j, p.hash, evs[j].now);
  }

  /** Refreshing never outlives revocation: whatever a refresh issues was due to a token that is itself
      still current, and carries the same epoch. */
  lemma RefreshKeepsEpoch(evs: seq<Event>, ss: seq<State>, replies: seq<Reply>, j: nat, t: SessionToken,
                          t': SessionToken)
    requires IsRun(evs, ss, replies) && j < |evs|
    requires evs[j].request == Refresh(t) && replies[j] == Session(t')
    ensures t'.chat == t.chat && t'.epoch == t.epoch && t'.exp == Expiry(evs[j].now, SESSION_TTL)
  {
    At(evs, ss, replies, j);
  }
}
