/** Which tokens a run issues, to whom and for how long, and what every request does to the rows. */
module PortalTokens {
  import opened Common
  import opened Portal
  import opened PortalRuns

  // ----- what exists was issued -----

  /** Step `i` minted the link `t` for its account. */
  ghost predicate Mints(evs: seq<Event>, replies: seq<Reply>, i: nat, t: LoginToken)
    requires i < |evs| && i < |replies|
  {
    evs[i].request == MintLogin(t.chat, t.jti) && replies[i] == LoginLink(t)
  }

  lemma HandleMints(s: State, r: Request, now: real, t: LoginToken)
    ensures var (s', reply) := Handle(s, r, now);
            t in s'.logins <==> t in s.logins || (r == MintLogin(t.chat, t.jti) && reply == LoginLink(t))
  {
    hide Bound, Owns, Unpruned, Expiry;
  }

  /** The links that exist are those that were minted, each for its own account. */
  lemma {:induction false} LinksMinted(evs: seq<Event>, ss: seq<State>, replies: seq<Reply>, j: nat, t: LoginToken)
    requires IsRun(evs, ss, replies) && j <= |evs|
    ensures t in ss[j].logins <==> exists i :: 0 <= i < j && Mints(evs, replies, i, t)
  {
    hide Handle;
    if j > 0 {
      LinksMinted(evs, ss, replies, j - 1, t);
      At(evs, ss, replies, j - 1);
      HandleMints(ss[j - 1], evs[j - 1].request, evs[j - 1].now, t);
      assert t in ss[j].logins <==> t in ss[j - 1].logins || Mints(evs, replies, j - 1, t);
    }
  }

  lemma HandleSessions(s: State, r: Request, now: real, t: SessionToken)
    ensures var (s', reply) := Handle(s, r, now);
            t in s'.sessions <==> t in s.sessions || reply == Session(t)
  {
    hide Bound, Owns, Unpruned, Expiry;
  }

  /** The sessions that exist are those that were issued. */
  lemma {:induction false} SessionsIssued(evs: seq<Event>, ss: seq<State>, replies: seq<Reply>, j: nat, t: SessionToken)
    requires IsRun(evs, ss, replies) && j <= |evs|
    ensures t in ss[j].sessions <==> exists i :: 0 <= i < j && replies[i] == Session(t)
  {
    hide Handle;
    if j > 0 {
      SessionsIssued(evs, ss, replies, j - 1, t);
      At(evs, ss, replies, j - 1);
      HandleSessions(ss[j - 1], evs[j - 1].request, evs[j - 1].now, t);
    }
  }

  /** A link lasts its 15 minutes less a fraction of a second. */
  lemma MintedFor(evs: seq<Event>, ss: seq<State>, replies: seq<Reply>, j: nat, chat: int, jti: string)
    requires IsRun(evs, ss, replies) && j < |evs| && evs[j].request == MintLogin(chat, jti)
    ensures replies[j].LoginLink? && var t := replies[j].login;
            t.chat == chat && t.jti == jti && evs[j].now + 899.0 < t.exp as real <= evs[j].now + 900.0
  {
    At(evs, ss, replies, j);
  }

  /** The epoch of an account: one more than the owner's unbindings of its rows so far. */
  lemma EpochIs(evs: seq<Event>, ss: seq<State>, replies: seq<Reply>, j: nat, chat: int)
    requires IsRun(evs, ss, replies) && j <= |evs|
    ensures (if chat in ss[j].epochs then ss[j].epochs[chat] else 1) == 1 + Bumped(evs, ss, 0, j, chat)
  {
    EpochCounts(evs, ss, replies, 0, j, chat);
  }

  // ----- whose session it is -----

  /** `t` is a session of the account `chat` of 30 days less a fraction of a second, of the epoch at step `j`. */
  ghost predicate SessionOf(evs: seq<Event>, ss: seq<State>, j: nat, chat: int, t: SessionToken)
    requires j < |evs| && j < |ss|
  {
    && t.chat == chat && t.epoch == (if chat in ss[j].epochs then ss[j].epochs[chat] else 1)
    && evs[j].now + 2_591_999.0 < t.exp as real <= evs[j].now + 2_592_000.0
  }

  /** An exchange opens a session of the account its link was minted for, which some row is bound to. */
  lemma ExchangeIssues(evs: seq<Event>, ss: seq<State>, replies: seq<Reply>, j: nat, t: LoginToken, t': SessionToken)
    requires IsRun(evs, ss, replies) && j < |evs| && evs[j].request == Exchange(t) && replies[j] == Session(t')
    ensures SessionOf(evs, ss, j, t.chat, t')
    ensures exists i :: 0 <= i < j && Mints(evs, replies, i, t)
    ensures exists id :: id in ss[j].rows && ss[j].rows[id].chat == Some(t.chat)
  {
    hide Unpruned;
    At(evs, ss, replies, j);
    LinksMinted(evs, ss, replies, j, t);
  }

  /** A Telegram login opens a session of the account Telegram vouches for, which owns a row of the uuid. */
  lemma TelegramIssues(evs: seq<Event>, ss: seq<State>, replies: seq<Reply>, j: nat, uuid: string, p: Payload,
                       t': SessionToken)
    requires IsRun(evs, ss, replies) && j < |evs|
    requires evs[j].request == TelegramLogin(uuid, p) && replies[j] == Session(t')
    ensures SessionOf(evs, ss, j, p.userId, t')
    ensures exists id :: id in ss[j].rows && ss[j].rows[id].uuid == uuid && ss[j].rows[id].chat == Some(p.userId)
  {
    hide Unpruned;
    At(evs, ss, replies, j);
  }

  /** A refresh opens a session of the account of the one it trades in. */
  lemma RefreshIssues(evs: seq<Event>, ss: seq<State>, replies: seq<Reply>, j: nat, t: SessionToken, t': SessionToken)
    requires IsRun(evs, ss, replies) && j < |evs| && evs[j].request == Refresh(t) && replies[j] == Session(t')
    ensures SessionOf(evs, ss, j, t.chat, t')
    ensures exists i :: 0 <= i < j && replies[i] == Session(t)
  {
    At(evs, ss, replies, j);
    SessionsIssued(evs, ss, replies, j, t);
  }

  /** Nothing else opens one. */
  lemma SessionsOnlyBy(evs: seq<Event>, ss: seq<State>, replies: seq<Reply>, j: nat)
    requires IsRun(evs, ss, replies) && j < |evs| && replies[j].Session?
    ensures evs[j].request.Exchange? || evs[j].request.TelegramLogin? || evs[j].request.Refresh?
  {
    hide Unpruned, Bound, Owns;
    At(evs, ss, replies, j);
  }

  // ----- when it is opened -----

  /** Step `k` opened a session on the link id or payload hash `key`, at most 900 seconds before `now`. */
  ghost predicate UsedLately(evs: seq<Event>, replies: seq<Reply>, k: nat, key: string, now: real)
    requires k < |evs| && k < |replies|
  {
    && replies[k].Session? && now <= evs[k].now + 900.0
    && match evs[k].request
       case Exchange(t) => t.jti != "" && t.jti == key
       case TelegramLogin(_, p) => p.hash == key
       case _ => false
  }

  lemma LatelyIff(evs: seq<Event>, ss: seq<State>, replies: seq<Reply>, j: nat, key: string)
    requires IsRun(evs, ss, replies) && j < |evs|
    ensures Held(ss[j].nonces, key, evs[j].now)
            <==> exists k :: 0 <= k < j && UsedLately(evs, replies, k, key, evs[j].now)
  {
    hide Handle, Held;
    HeldIff(evs, ss, replies, j, key, evs[j].now);
    if k :| 0 <= k < j && Consumes(evs, replies, k, key) && evs[k].now + LOGIN_TTL >= evs[j].now {
      assert UsedLately(evs, replies, k, key, evs[j].now);
    }
    if k :| 0 <= k < j && UsedLately(evs, replies, k, key, evs[j].now) {
      assert Consumes(evs, replies, k, key);
    }
  }

  /** An exchange succeeds exactly if its link was minted, has not run out, leads to an account some row is bound
      to, and, with a jti, was not used in the last 900 seconds. */
  lemma ExchangeExact(evs: seq<Event>, ss: seq<State>, replies: seq<Reply>, j: nat, t: LoginToken)
    requires IsRun(evs, ss, replies) && j < |evs| && evs[j].request == Exchange(t)
    ensures replies[j].Session?
            <==> && (exists i :: 0 <= i < j && Mints(evs, replies, i, t))
                 && evs[j].now < t.exp as real
                 && (exists id :: id in ss[j].rows && ss[j].rows[id].chat == Some(t.chat))
                 && (t.jti == "" || forall k :: 0 <= k < j ==> !UsedLately(evs, replies, k, t.jti, evs[j].now))
    ensures replies[j].Session? || replies[j] == Denied
  {
    hide UsedLately, Mints;
    At(evs, ss, replies, j);
    LinksMinted(evs, ss, replies, j, t);
    LatelyIff(evs, ss, replies, j, t.jti);
  }

  /** A Telegram login succeeds exactly if its payload is dated and at most 900 seconds old, its uuid and the
      proven account meet in one row, its hash has 64 characters, and it was not used in the last 900 seconds. */
  lemma TelegramExact(evs: seq<Event>, ss: seq<State>, replies: seq<Reply>, j: nat, uuid: string, p: Payload)
    requires IsRun(evs, ss, replies) && j < |evs| && evs[j].request == TelegramLogin(uuid, p)
    ensures replies[j].Session?
            <==> && 0 < p.authDate && evs[j].now - p.authDate as real <= 900.0 && uuid != "" && |p.hash| == 64
                 && (exists id :: id in ss[j].rows && ss[j].rows[id].uuid == uuid
                                  && ss[j].rows[id].chat == Some(p.userId))
                 && forall k :: 0 <= k < j ==> !UsedLately(evs, replies, k, p.hash, evs[j].now)
    ensures replies[j].Session? || replies[j] == Denied
  {
    hide UsedLately;
    At(evs, ss, replies, j);
    LatelyIff(evs, ss, replies, j, p.hash);
  }

  /** A session is accepted, and renewed, exactly if it was issued, has not run out, belongs to an account some row
      is bound to, and the owner unbound no row of the account since. */
  lemma AcceptedExact(evs: seq<Event>, ss: seq<State>, replies: seq<Reply>, i: nat, j: nat, t: SessionToken)
    requires IsRun(evs, ss, replies) && i < j < |evs| && replies[i] == Session(t)
    requires evs[j].request == Access(t) || evs[j].request == Refresh(t)
    ensures replies[j] != Denied
            <==> && evs[j].now < t.exp as real
                 && (exists id :: id in ss[j].rows && ss[j].rows[id].chat == Some(t.chat))
                 && forall k :: i < k < j ==> !Bumps(evs, ss, k, t.chat)
    ensures replies[j] != Denied ==> if evs[j].request.Access? then replies[j] == Accepted else replies[j].Session?
  {
    hide Unpruned, Owns;
    At(evs, ss, replies, i);
    At(evs, ss, replies, j);
    Issued(ss[i], evs[i].request, evs[i].now, t);
    EpochCounts(evs, ss, replies, i + 1, j, t.chat);
  }

  // ----- the rows -----

  /** An unbinding or a removal clears the account of its one row; registration, sync and deletion set or drop the
      one row they name; no other request changes a row. */
  lemma RowsChange(evs: seq<Event>, ss: seq<State>, replies: seq<Reply>, j: nat, id: int)
    requires IsRun(evs, ss, replies) && j < |evs|
    ensures var rows, rows' := ss[j].rows, ss[j + 1].rows;
            match evs[j].request
            case Unbind(row) =>
              && (replies[j] == Done <==> row in rows) && (id in rows' <==> id in rows)
              && (id in rows ==> rows'[id].uuid == rows[id].uuid
                                 && rows'[id].chat == if id == row then None else rows[id].chat)
            case RemoveLink(chat, row) =>
              && (replies[j] == Done <==> row in rows && rows[row].chat == Some(chat))
              && (id in rows' <==> id in rows)
              && (id in rows ==> rows'[id].uuid == rows[id].uuid
                                 && rows'[id].chat == if id == row && rows[id].chat == Some(chat) then None
                                                      else rows[id].chat)
            case SetRow(row, contents) =>
              && (id in rows' <==> if id == row then contents.Some? else id in rows)
              && (id in rows' ==> rows'[id] == if id == row then contents.value else rows[id])
            case _ => rows' == rows
  {
    hide Unpruned, Bound, Owns, Expiry;
    At(evs, ss, replies, j);
  }
}
