/** The login session of `client/js/session.js`: a session record kept in local storage under
    `mojicode_session`, its expiry time mirrored under `mojicode_timeout`, and a 24-hour lifetime
    checked whenever the session is read.

    Each `Date.now()` reading that decides a stored value is a parameter (`createSession` and
    `extendSession` each read the clock twice), the 16 random token bytes are a parameter, and
    the expiry timer is not modelled: expiry is observed through `GetSession`. The session is stored as `JSON.stringify` text and read back with
    `JSON.parse`, so what a read returns is a JSON copy of the user data: the parameter `json` of
    `CreateSession` is that copy, and storage holds the session as a read would return it. */
module Session {
  import opened Wrappers
  import Hex
  import Text

  const StorageKey: string := "mojicode_session"
  const TimeoutKey: string := "mojicode_timeout"

  /** 24 hours in milliseconds. */
  const SessionTimeout: int := 24 * 60 * 60 * 1000

  datatype Session<U> = Session(user: U, token: string, createdAt: int, expiresAt: int)

  /** The two local-storage entries the manager owns; `None` is an absent key. */
  datatype Storage<U> = Storage(session: Option<Session<U>>, timeout: Option<string>)

  /** `generateToken`: each byte as two lowercase hex digits, zero-padded, joined. */
  function GenerateToken(bytes: seq<Hex.Byte>): (r: string)
    requires |bytes| == 16
    ensures |r| == 32
    ensures forall i | 0 <= i < |r| :: Hex.IsLowerHexDigit(r[i])
    ensures Hex.HexDecode(r) == Some(bytes)
  {
    Hex.HexRoundTrip(bytes);
    Hex.HexEncode(bytes)
  }

  /** `setSessionTimeout`'s storage write: the expiry time as a decimal string. */
  function SetSessionTimeout<U>(st: Storage<U>, expiresAt: int): (r: Storage<U>)
    ensures r.session == st.session
    ensures r.timeout.Some? && r.timeout.value != []
  {
    st.(timeout := Some(Text.IntToDecimal(expiresAt)))
  }

  /** `createSession`: a new session for `user`, created at the first clock reading `created`
      and expiring 24 hours after the second reading `now`. The user is stored as its JSON text,
      which reads back as `json(user)`. */
  function CreateSession<U>(st: Storage<U>, user: U, json: U -> U, bytes: seq<Hex.Byte>, created: int, now: int)
    : (r: Storage<U>)
    requires |bytes| == 16
    ensures r.session.Some?
    ensures r.session.value.user == json(user) && r.session.value.createdAt == created
    ensures r.session.value.expiresAt == now + SessionTimeout
    ensures |r.session.value.token| == 32
    ensures r.timeout == Some(Text.IntToDecimal(now + SessionTimeout))
  {
    var s := Session(json(user), GenerateToken(bytes), created, now + SessionTimeout);
    SetSessionTimeout(st.(session := Some(s)), s.expiresAt)
  }

  /** `clearSession`: both keys removed. */
  function ClearSession<U>(st: Storage<U>): (r: Storage<U>)
    ensures r.session.None? && r.timeout.None?
  {
    Storage(None, None)
  }

  /** `getSession`: the stored session while `now` has not passed its expiry; an expired session
      is cleared from storage. Returns the storage afterwards and the session. */
  function GetSession<U>(st: Storage<U>, now: int): (r: (Storage<U>, Option<Session<U>>))
    ensures st.session.None? ==> r == (st, None)
    ensures st.session.Some? && now > st.session.value.expiresAt ==> r == (ClearSession(st), None)
    ensures st.session.Some? && now <= st.session.value.expiresAt ==> r == (st, st.session)
  {
    match st.session
    case None => (st, None)
    case Some(s) => if now > s.expiresAt then (ClearSession(st), None) else (st, Some(s))
  }

  /** `isLoggedIn`. */
  function IsLoggedIn<U>(st: Storage<U>, now: int): (r: (Storage<U>, bool))
    ensures r.0 == GetSession(st, now).0
    ensures r.1 <==> GetSession(st, now).1.Some?
  {
    var (st', s) := GetSession(st, now);
    (st', s.Some?)
  }

  /** `getCurrentUser`: the live session's user, if any. */
  function GetCurrentUser<U>(st: Storage<U>, now: int): (r: (Storage<U>, Option<U>))
    ensures r.0 == GetSession(st, now).0
    ensures r.1.Some? <==> IsLoggedIn(st, now).1
    ensures r.1.Some? ==> r.1.value == st.session.value.user
  {
    var (st', s) := GetSession(st, now);
    (st', if s.Some? then Some(s.value.user) else None)
  }

  /** `extendSession`: the session read at the clock reading `check` (inside `getSession`), if
      live, gets a fresh 24 hours from the later reading `now`, keeping its user, token and
      creation time; otherwise only `getSession`'s clearing of an expired session happens. */
  function ExtendSession<U>(st: Storage<U>, check: int, now: int): (r: Storage<U>)
    ensures !IsLoggedIn(st, check).1 ==> r == GetSession(st, check).0
    ensures IsLoggedIn(st, check).1 ==>
              && r.session == Some(st.session.value.(expiresAt := now + SessionTimeout))
              && r.timeout == Some(Text.IntToDecimal(now + SessionTimeout))
  {
    var (st', s) := GetSession(st, check);
    if s.Some? then
      var extended := s.value.(expiresAt := now + SessionTimeout);
      SetSessionTimeout(st'.(session := Some(extended)), extended.expiresAt)
    else st'
  }

  /** A new session is live through its last millisecond, expires after it, and expiry removes
      both keys; while live, the current user is the JSON copy of the user data. */
  lemma CreatedSessionLifetime<U>(st: Storage<U>, user: U, json: U -> U, bytes: seq<Hex.Byte>,
                                  first: int, now: int, later: int)
    requires |bytes| == 16
    requires later >= now
    ensures var created := CreateSession(st, user, json, bytes, first, now);
            && (later <= now + SessionTimeout ==> GetCurrentUser(created, later) == (created, Some(json(user))))
            && (later > now + SessionTimeout ==> GetSession(created, later) == (Storage(None, None), None))
  {
  }

  /** A session live when `extendSession` checks it keeps the same user and token alive until
      the second reading `now` plus 24 hours, whatever time was left before, even when it ran
      out between the two readings. */
  lemma ExtendRenewsLifetime<U>(st: Storage<U>, check: int, now: int, later: int)
    requires IsLoggedIn(st, check).1
    requires now <= later <= now + SessionTimeout
    ensures var s := GetSession(ExtendSession(st, check, now), later).1;
            s.Some? && s.value.user == st.session.value.user && s.value.token == st.session.value.token
  {
  }

  /** Reading the session is stable: a second read at the same time sees the same outcome, and
      nothing survives `clearSession`. */
  lemma GetSessionStable<U>(st: Storage<U>, now: int)
    ensures var (st', s) := GetSession(st, now);
            GetSession(st', now) == (st', s)
    ensures GetSession(ClearSession(st), now) == (Storage(None, None), None)
  {
  }
}
