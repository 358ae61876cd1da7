/** The reseller portal's authentication: one-time login nonces, sliding sessions, revocation epochs. */
module Portal {
  import opened Common

  const LOGIN_TTL: real := 900.0
  const SESSION_TTL: real := 2_592_000.0
  const TELEGRAM_MAX_AGE: real := 900.0
  const HASH_LENGTH: nat := 64

  /** A reseller row: its lower-cased admin uuid and the Telegram account bound to it. */
  datatype Row = Row(uuid: string, chat: Option<int>)

  /** Claims of a login token. `exp` is in whole seconds; tokens from before the jti claim have jti "". */
  datatype LoginToken = LoginToken(chat: int, jti: string, exp: int)

  /** Claims of a session token. */
  datatype SessionToken = SessionToken(chat: int, epoch: int, exp: int)

  /** A Telegram Login Widget payload whose signature has been verified. */
  datatype Payload = Payload(userId: int, authDate: int, hash: string)

  /** The database rows, and the tokens that carry a valid signature because they were minted here. */
  datatype State = State(
    rows: map<int, Row>,
    epochs: map<int, int>,
    nonces: map<string, real>,
    logins: set<LoginToken>,
    sessions: set<SessionToken>)

  const INITIAL := State(map[], map[], map[], {}, {})

  datatype Request =
    | MintLogin(chat: int, jti: string)
    | Exchange(login: LoginToken)
    | TelegramLogin(uuid: string, payload: Payload)
    | Refresh(session: SessionToken)
    | Access(session: SessionToken)
    | Unbind(row: int)                         // the owner's endpoint
    | RemoveLink(chat: int, row: int)          // a reseller's own removal in the bot
    | SetRow(id: int, contents: Option<Row>)   // registration, sync or deletion of a reseller row
    | Prune                                    // the daily maintenance sweep

  datatype Reply =
    | LoginLink(login: LoginToken)
    | Session(session: SessionToken)
    | Accepted
    | Denied
    | Done

  // ----- pieces -----

  ghost predicate Bound(rows: map<int, Row>, chat: int) {
    exists id :: id in rows && rows[id].chat == Some(chat)
  }

  ghost predicate Owns(rows: map<int, Row>, uuid: string, chat: int) {
    exists id :: id in rows && rows[id] == Row(uuid, Some(chat))
  }

  function CurrentEpoch(epochs: map<int, int>, chat: int): int {
    if chat in epochs then epochs[chat] else 1
  }

  function Bump(epochs: map<int, int>, chat: int): map<int, int> {
    epochs[chat := if chat in epochs then epochs[chat] + 1 else 2]
  }

  function Expiry(now: real, ttl: real): int { (now + ttl).Floor }

  predicate Unexpired(exp: int, now: real) { now < exp as real }

  /** The nonces whose expiry has not passed. */
  function Unpruned(nonces: map<string, real>, now: real): map<string, real> {
    map k | k in nonces && !(nonces[k] < now) :: nonces[k]
  }

  /** Inserts a nonce after pruning; `None` when the key is taken and everything is rolled back. */
  function Consume(nonces: map<string, real>, key: string, now: real, ttl: real): Option<map<string, real>> {
    var kept := Unpruned(nonces, now);
    if key in kept then None else Some(kept[key := now + ttl])
  }

  function NewSession(s: State, chat: int, now: real): SessionToken {
    SessionToken(chat, CurrentEpoch(s.epochs, chat), Expiry(now, SESSION_TTL))
  }

  function Issue(s: State, chat: int, now: real): (State, Reply) {
    var t := NewSession(s, chat, now);
    (s.(sessions := s.sessions + {t}), Session(t))
  }

  ghost predicate Authenticates(s: State, t: SessionToken, now: real) {
    && t in s.sessions && Unexpired(t.exp, now)
    && Bound(s.rows, t.chat)
    && t.epoch == CurrentEpoch(s.epochs, t.chat)
  }

  // ----- one request -----

  ghost function HandleExchange(s: State, t: LoginToken, now: real): (State, Reply) {
    if !(t in s.logins && Unexpired(t.exp, now)) then (s, Denied)
    else if !Bound(s.rows, t.chat) then (s, Denied)
    else if t.jti == "" then Issue(s, t.chat, now)
    else match Consume(s.nonces, t.jti, now, LOGIN_TTL)
      case None => (s, Denied)
      case Some(nonces) => Issue(s.(nonces := nonces), t.chat, now)
  }

  ghost function HandleTelegram(s: State, uuid: string, p: Payload, now: real): (State, Reply) {
    if p.authDate <= 0 || now - p.authDate as real > TELEGRAM_MAX_AGE then (s, Denied)
    else if uuid == "" || !Owns(s.rows, uuid, p.userId) then (s, Denied)
    else if |p.hash| != HASH_LENGTH then (s, Denied)
    else match Consume(s.nonces, p.hash, now, TELEGRAM_MAX_AGE)
      case None => (s, Denied)
      case Some(nonces) => Issue(s.(nonces := nonces), p.userId, now)
  }

  function HandleUnbind(s: State, id: int): (State, Reply) {
    if id !in s.rows then (s, Denied)
    else
      var epochs := match s.rows[id].chat case None => s.epochs case Some(chat) => Bump(s.epochs, chat);
      (s.(epochs := epochs, rows := s.rows[id := s.rows[id].(chat := None)]), Done)
  }

  /** The bot's removal clears the binding and, unlike the owner's, bumps nothing. */
  function HandleRemoval(s: State, chat: int, id: int): (State, Reply) {
    if id in s.rows && s.rows[id].chat == Some(chat) then (s.(rows := s.rows[id := s.rows[id].(chat := None)]), Done)
    else (s, Denied)
  }

  ghost function Handle(s: State, r: Request, now: real): (State, Reply) {
    match r
    case MintLogin(chat, jti) =>
      var t := LoginToken(chat, jti, Expiry(now, LOGIN_TTL));
      (s.(logins := s.logins + {t}), LoginLink(t))
    case Exchange(t) => HandleExchange(s, t, now)
    case TelegramLogin(uuid, p) => HandleTelegram(s, uuid, p, now)
    case Refresh(t) => if Authenticates(s, t, now) then Issue(s, t.chat, now) else (s, Denied)
    case Access(t) => (s, if Authenticates(s, t, now) then Accepted else Denied)
    case Unbind(id) => HandleUnbind(s, id)
    case RemoveLink(chat, id) => HandleRemoval(s, chat, id)
    case SetRow(id, None) => (s.(rows := s.rows - {id}), Done)
    case SetRow(id, Some(row)) => (s.(rows := s.rows[id := row]), Done)
    case Prune => (s.(nonces := Unpruned(s.nonces, now)), Done)
  }

  // ----- the handlers, changing the stored rows in place -----

  class Server {
    var rows: map<int, Row>
    var epochs: map<int, int>
    var nonces: map<string, real>
    var logins: set<LoginToken>
    var sessions: set<SessionToken>

    function Contents(): State
      reads this
    {
      State(rows, epochs, nonces, logins, sessions)
    }

    constructor ()
      ensures Contents() == INITIAL
    {
      rows, epochs, nonces, logins, sessions := map[], map[], map[], {}, {};
    }

    method HasRow(chat: int) returns (found: bool)
      ensures found == Bound(rows, chat)
    {
      found := exists id :: id in rows && rows[id].chat == Some(chat);
    }

    method CreateLogin(chat: int, jti: string, now: real) returns (reply: Reply)
      modifies this
      ensures (Contents(), reply) == Handle(old(Contents()), MintLogin(chat, jti), now)
    {
      var t := LoginToken(chat, jti, Expiry(now, LOGIN_TTL));
      logins := logins + {t};
      reply := LoginLink(t);
    }

    method CreateSession(chat: int, now: real) returns (reply: Reply)
      modifies `sessions
      ensures (Contents(), reply) == Issue(old(Contents()), chat, now)
    {
      var t := SessionToken(chat, CurrentEpoch(epochs, chat), Expiry(now, SESSION_TTL));
      sessions := sessions + {t};
      reply := Session(t);
    }

    /** Prunes, inserts and commits, or rolls both back when the key is taken. */
    method ConsumeNonce(key: string, now: real, ttl: real) returns (ok: bool)
      modifies `nonces
      ensures ok == Consume(old(nonces), key, now, ttl).Some?
      ensures nonces == if ok then Consume(old(nonces), key, now, ttl).value else old(nonces)
    {
      var saved := nonces;
      nonces := Unpruned(nonces, now);
      if key in nonces {
        nonces := saved;
        return false;
      }
      nonces := nonces[key := now + ttl];
      return true;
    }

    method DoExchange(t: LoginToken, now: real) returns (reply: Reply)
      modifies this
      ensures (Contents(), reply) == Handle(old(Contents()), Exchange(t), now)
    {
      if !(t in logins && Unexpired(t.exp, now)) { return Denied; }
      var has := HasRow(t.chat);
      if !has { return Denied; }
      if t.jti != "" {
        var ok := ConsumeNonce(t.jti, now, LOGIN_TTL);
        if !ok { return Denied; }
      }
      reply := CreateSession(t.chat, now);
    }

    method AuthTelegram(uuid: string, p: Payload, now: real) returns (reply: Reply)
      modifies this
      ensures (Contents(), reply) == Handle(old(Contents()), TelegramLogin(uuid, p), now)
    {
      if p.authDate <= 0 || now - p.authDate as real > TELEGRAM_MAX_AGE { return Denied; }
      if uuid == "" { return Denied; }
      var owner := exists id :: id in rows && rows[id] == Row(uuid, Some(p.userId));
      if !owner { return Denied; }
      if |p.hash| != HASH_LENGTH { return Denied; }
      var ok := ConsumeNonce(p.hash, now, TELEGRAM_MAX_AGE);
      if !ok { return Denied; }
      reply := CreateSession(p.userId, now);
    }

    /** `get_current_reseller` */
    method Authenticate(t: SessionToken, now: real) returns (ok: bool)
      ensures ok == Authenticates(Contents(), t, now)
    {
      if !(t in sessions && Unexpired(t.exp, now)) { return false; }
      var has := HasRow(t.chat);
      if !has { return false; }
      ok := t.epoch == CurrentEpoch(epochs, t.chat);
    }

    method DoRefresh(t: SessionToken, now: real) returns (reply: Reply)
      modifies this
      ensures (Contents(), reply) == Handle(old(Contents()), Refresh(t), now)
    {
      var ok := Authenticate(t, now);
      if !ok { return Denied; }
      reply := CreateSession(t.chat, now);
    }

    method BumpEpoch(chat: Option<int>)
      modifies `epochs
      ensures epochs == match chat case None => old(epochs) case Some(c) => Bump(old(epochs), c)
    {
      if chat == None { return; }
      var c := chat.value;
      if c !in epochs {
        epochs := epochs[c := 2];
      } else {
        epochs := epochs[c := epochs[c] + 1];
      }
    }

    method UnbindTelegram(id: int, now: real) returns (reply: Reply)
      modifies this
      ensures (Contents(), reply) == Handle(old(Contents()), Unbind(id), now)
    {
      if id !in rows { return Denied; }
      BumpEpoch(rows[id].chat);
      rows := rows[id := rows[id].(chat := None)];
      reply := Done;
    }

    /** `rm:` in the bot */
    method DoRemoveLink(chat: int, id: int, now: real) returns (reply: Reply)
      modifies this
      ensures (Contents(), reply) == Handle(old(Contents()), RemoveLink(chat, id), now)
    {
      if id !in rows || rows[id].chat != Some(chat) { return Denied; }
      rows := rows[id := rows[id].(chat := None)];
      reply := Done;
    }
  }
}
