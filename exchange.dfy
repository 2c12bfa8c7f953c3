/**
 * The OAuth one-time exchange-code store of the auth router: a table from
 * an opaque code to the payload of a signed-in user and an expiry time.
 *
 * This module holds the value-level view of the table and of its three
 * operations (mint, redeem, reap) as functions on maps. The class in
 * code_store.dfy updates such a map in place and is proved against these
 * functions; the lemmas in exchange_properties.dfy are stated over them.
 *
 * Time is a parameter (milliseconds, as returned by the server clock), and
 * the payload is a type parameter the store never looks inside.
 */
module OAuthExchange {

  /** Lifetime of a minted code: one minute, in milliseconds. */
  const OAuthCodeTtlMs: int := 60 * 1000

  /** A minted code is 32 random bytes written as lower-case hex. */
  const CodeLength: nat := 64

  type Code = string

  /** What the table keeps for one code. */
  datatype Entry<P> = Entry(payload: P, expiresAt: int)

  type Store<P> = map<Code, Entry<P>>

  /**
   * The `code` member of the JSON request body of the exchange endpoint.
   * `Absent` is a body without that member; `Composite` is a JSON object
   * or array. `Number` holds the parsed JavaScript number (so a literal that
   * rounds to zero when parsed is `Number(0.0)`).
   */
  datatype CodeField =
    | Absent
    | Null
    | Bool(b: bool)
    | Number(x: real)
    | Str(s: string)
    | Composite

  /** The JavaScript `!code` test: the values that count as no code at all. */
  predicate IsFalsy(f: CodeField)
  {
    match f
    case Absent => true
    case Null => true
    case Bool(b) => !b
    case Number(x) => x == 0.0
    case Str(s) => s == ""
    case Composite => false
  }

  /** The outcome of a redemption: the payload, or one of the two errors. */
  datatype Redemption<P> =
    | Ok(payload: P)     // 200, the payload goes on to session issuance
    | MissingCode        // 400 "Code is required"
    | InvalidOrExpired   // 401 "Invalid or expired code"

  /** The comparison is strict: an entry is still good at its expiry instant. */
  predicate Expired<P>(e: Entry<P>, now: int)
  {
    e.expiresAt < now
  }

  predicate IsHexDigit(ch: char)
  {
    '0' <= ch <= '9' || 'a' <= ch <= 'f'
  }

  /** The shape of a code produced by hex-encoding 32 random bytes. */
  predicate IsHexCode(c: Code)
  {
    |c| == CodeLength && forall i :: 0 <= i < |c| ==> IsHexDigit(c[i])
  }

  /** Every key of the table is a code the mint step could have produced. */
  predicate WellFormed<P>(m: Store<P>)
  {
    forall c :: c in m ==> IsHexCode(c)
  }

  /** The table after `set(code, { payload, expiresAt: now + TTL })`. */
  function AfterMint<P>(m: Store<P>, code: Code, payload: P, now: int): Store<P>
  {
    m[code := Entry(payload, now + OAuthCodeTtlMs)]
  }

  /** What the exchange endpoint answers for `field` at time `now`. */
  function RedeemResult<P>(m: Store<P>, field: CodeField, now: int): Redemption<P>
  {
    if IsFalsy(field) then MissingCode
    else if field.Str? && field.s in m && !Expired(m[field.s], now) then Ok(m[field.s].payload)
    else InvalidOrExpired
  }

  /**
   * The table after the exchange endpoint ran. Both the failure path and the
   * success path delete the looked-up key; a missing code leaves the table
   * alone, and a key that is not a string is never in the table, so its
   * delete changes nothing.
   */
  function AfterRedeem<P>(m: Store<P>, field: CodeField, now: int): Store<P>
  {
    if IsFalsy(field) then m
    else if field.Str? then m - {field.s}
    else m
  }

  /** The table after one sweep of the periodic cleanup at time `now`. */
  function Reaped<P>(m: Store<P>, now: int): Store<P>
  {
    map c | c in m && !Expired(m[c], now) :: m[c]
  }
}
