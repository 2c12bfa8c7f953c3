/**
 * The process-wide exchange-code table as an object whose map is updated in
 * place, with the three operations the auth router performs on it.
 */
module OAuthCodeStore {
  import opened OAuthExchange

  class CodeStore<P> {
    /** code -> { payload, expiresAt } */
    var codes: Store<P>

    /** Every key was produced by the mint step. */
    ghost predicate Valid()
      reads this
    {
      WellFormed(codes)
    }

    /** The table starts empty when the router module is loaded. */
    constructor ()
      ensures Valid()
      ensures codes == map[]
    {
      codes := map[];
    }

    /**
     * The last step of the Google callback handler: bind a fresh code to the
     * payload, valid for one TTL from `now`. `code` stands for the hex output
     * of the secure random source. Like `Map.set`, a key already present is
     * overwritten; the table grows by one when the source did not collide.
     */
    method Mint(code: Code, payload: P, now: int)
      requires Valid()
      requires IsHexCode(code)
      modifies this
      ensures Valid()
      ensures codes == AfterMint(old(codes), code, payload, now)
      ensures code !in old(codes) ==> |codes| == |old(codes)| + 1
    {
      codes := codes[code := Entry(payload, now + OAuthCodeTtlMs)];
    }

    /**
     * The exchange endpoint: reject a missing code without touching the table;
     * otherwise look the code up, delete it whatever the outcome, and hand
     * back the payload when the entry existed and had not expired.
     */
    method Redeem(field: CodeField, now: int) returns (r: Redemption<P>)
      requires Valid()
      modifies this
      ensures Valid()
      ensures r == RedeemResult(old(codes), field, now)
      ensures codes == AfterRedeem(old(codes), field, now)
      ensures field.Str? && field.s in old(codes) ==> r != MissingCode
    {
      if IsFalsy(field) {
        return MissingCode;
      }
      if !field.Str? {
        // Map.get and Map.delete with a key that is not a string: no entry.
        return InvalidOrExpired;
      }
      var code := field.s;
      if code !in codes || Expired(codes[code], now) {
        codes := codes - {code};
        return InvalidOrExpired;
      }
      var entry := codes[code];
      codes := codes - {code};  // one-time use
      r := Ok(entry.payload);
    }

    /**
     * One pass of the periodic cleanup: visit every entry once and delete
     * those whose expiry lies strictly before `now`.
     */
    method Reap(now: int)
      requires Valid()
      modifies this
      ensures Valid()
      ensures codes == Reaped(old(codes), now)
    {
      ghost var start := codes;
      var pending := codes.Keys;
      while pending != {}
        invariant pending <= start.Keys
        invariant codes.Keys <= start.Keys
        invariant forall c :: c in pending ==> c in codes
        invariant forall c :: c in start && c !in pending ==> (c in codes <==> !Expired(start[c], now))
        invariant forall c :: c in codes ==> codes[c] == start[c]
        decreases pending
      {
        var c :| c in pending;
        if Expired(codes[c], now) {
          codes := codes - {c};
        }
        pending := pending - {c};
      }
      assert codes.Keys == Reaped(start, now).Keys;
    }
  }
}

/**
 * The sign-in flow as the router's two handlers drive it: the callback mints
 * a code at `t`, the browser redeems it at `now`, and a replay of the same
 * code right after is refused.
 */
module OAuthSignInFlow {
  import opened OAuthExchange
  import opened OAuthCodeStore

  method CallbackThenExchange<P>(code: Code, payload: P, t: int, now: int, replayAt: int)
    returns (first: Redemption<P>, replay: Redemption<P>)
    requires IsHexCode(code)
    requires now <= t + OAuthCodeTtlMs
    ensures first == Ok(payload)
    ensures replay == InvalidOrExpired
  {
    var store := new CodeStore<P>();
    store.Mint(code, payload, t);
    assert |code| == CodeLength;
    first := store.Redeem(Str(code), now);
    replay := store.Redeem(Str(code), replayAt);
  }
}
