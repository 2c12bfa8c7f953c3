/**
 * What the exchange-code table guarantees, stated over the functions of
 * OAuthExchange: first about one operation at a time, then about any
 * sequence of mints, redemptions and sweeps.
 */
module OAuthExchangeProperties {
  import opened OAuthExchange

  // ---------------------------------------------------------------------
  // One operation
  // ---------------------------------------------------------------------

  /** A minted code is never mistaken for a missing one. */
  lemma HexCodeIsPresent(c: Code)
    requires IsHexCode(c)
    ensures !IsFalsy(Str(c))
  {
    assert |c| == CodeLength;
  }

  /**
   * Round trip: a payload minted under a code at time `t` comes back
   * unchanged from a redemption at any time up to `t + TTL`, and from then on
   * the redemption is refused.
   */
  lemma MintThenRedeem<P>(m: Store<P>, code: Code, payload: P, t: int, now: int)
    requires IsHexCode(code)
    ensures RedeemResult(AfterMint(m, code, payload, t), Str(code), now)
            == if now <= t + OAuthCodeTtlMs then Ok(payload) else InvalidOrExpired
  {
    HexCodeIsPresent(code);
  }

  /** Minting a fresh code and redeeming it, in time or not, leaves the table as it was. */
  lemma MintThenRedeemRestores<P>(m: Store<P>, code: Code, payload: P, t: int, now: int)
    requires IsHexCode(code) && code !in m
    ensures AfterRedeem(AfterMint(m, code, payload, t), Str(code), now) == m
  {
    HexCodeIsPresent(code);
  }

  /** Mint adds exactly the one key, with expiry `now + TTL`, and nothing else. */
  lemma MintAddsOneEntry<P>(m: Store<P>, code: Code, payload: P, now: int)
    requires code !in m
    ensures AfterMint(m, code, payload, now).Keys == m.Keys + {code}
    ensures |AfterMint(m, code, payload, now)| == |m| + 1
    ensures AfterMint(m, code, payload, now)[code].expiresAt == now + 60000
    ensures AfterMint(m, code, payload, now)[code].payload == payload
    ensures forall c :: c in m ==> AfterMint(m, code, payload, now)[c] == m[c]
  {
  }

  /** Minting keeps every key a well-formed code. */
  lemma MintKeepsWellFormed<P>(m: Store<P>, code: Code, payload: P, now: int)
    requires WellFormed(m) && IsHexCode(code)
    ensures WellFormed(AfterMint(m, code, payload, now))
  {
  }

  /** A missing code is rejected before the table is consulted. */
  lemma MissingCodeLeavesTable<P>(m: Store<P>, field: CodeField, now: int)
    requires IsFalsy(field)
    ensures RedeemResult(m, field, now) == MissingCode
    ensures AfterRedeem(m, field, now) == m
  {
  }

  /**
   * A present code succeeds exactly when its entry exists and has not
   * expired (strictly before `now`); then it yields the stored payload.
   * Absent, expired and already-used codes give the same error.
   */
  lemma RedeemSucceedsIff<P>(m: Store<P>, c: Code, now: int)
    requires c != ""
    ensures RedeemResult(m, Str(c), now).Ok? <==> c in m && m[c].expiresAt >= now
    ensures RedeemResult(m, Str(c), now).Ok? ==> RedeemResult(m, Str(c), now).payload == m[c].payload
    ensures !RedeemResult(m, Str(c), now).Ok? ==> RedeemResult(m, Str(c), now) == InvalidOrExpired
  {
  }

  /** An expired code is refused and its entry is dropped. */
  lemma RedeemExpired<P>(m: Store<P>, c: Code, now: int)
    requires WellFormed(m)
    requires c in m && m[c].expiresAt < now
    ensures RedeemResult(m, Str(c), now) == InvalidOrExpired
    ensures c !in AfterRedeem(m, Str(c), now)
    ensures AfterRedeem(m, Str(c), now).Keys == m.Keys - {c}
  {
  }

  /** A present value that is not a string can never name an entry. */
  lemma RedeemNonString<P>(m: Store<P>, field: CodeField, now: int)
    requires !IsFalsy(field) && !field.Str?
    ensures RedeemResult(m, field, now) == InvalidOrExpired
    ensures AfterRedeem(m, field, now) == m
  {
  }

  /** One-time use: after a successful redemption the code is gone for good. */
  lemma RedeemIsOneTime<P>(m: Store<P>, c: Code, now: int, later: int)
    requires RedeemResult(m, Str(c), now).Ok?
    ensures c !in AfterRedeem(m, Str(c), now)
    ensures RedeemResult(AfterRedeem(m, Str(c), now), Str(c), later) == InvalidOrExpired
  {
  }

  /** Redemption, successful or not, only ever removes, and only the code asked for. */
  lemma RedeemTouchesOnlyItsCode<P>(m: Store<P>, field: CodeField, now: int)
    ensures AfterRedeem(m, field, now).Keys <= m.Keys
    ensures forall c :: c in m && !(field.Str? && c == field.s) ==>
              c in AfterRedeem(m, field, now) && AfterRedeem(m, field, now)[c] == m[c]
  {
  }

  /**
   * A sweep removes exactly the entries that expired strictly before `now`,
   * keeps the others untouched, and leaves only entries good at `now`.
   */
  lemma ReapRemovesExactlyExpired<P>(m: Store<P>, now: int)
    ensures forall c :: c in Reaped(m, now) <==> c in m && m[c].expiresAt >= now
    ensures forall c :: c in Reaped(m, now) ==> Reaped(m, now)[c] == m[c]
    ensures forall c :: c in Reaped(m, now) ==> Reaped(m, now)[c].expiresAt >= now
  {
  }

  /** A second sweep at the same time finds nothing left to remove. */
  lemma ReapIdempotent<P>(m: Store<P>, now: int)
    ensures Reaped(Reaped(m, now), now) == Reaped(m, now)
  {
    var once := Reaped(m, now);
    assert Reaped(once, now).Keys == once.Keys;
  }

  /**
   * Sweeping is invisible to redemption: whatever a sweep at `t` removed,
   * a redemption at `now >= t` would have refused anyway. So expiry and
   * one-time use never depend on the sweep having run.
   */
  lemma ReapInvisibleToRedeem<P>(m: Store<P>, t: int, field: CodeField, now: int)
    requires t <= now
    ensures RedeemResult(Reaped(m, t), field, now) == RedeemResult(m, field, now)
  {
  }

  // ---------------------------------------------------------------------
  // Any sequence of operations
  // ---------------------------------------------------------------------

  /** One call into the table, with the time at which it runs. */
  datatype Op<P> =
    | MintOp(code: Code, payload: P, at: int)
    | RedeemOp(field: CodeField, at: int)
    | ReapOp(at: int)

  function Apply<P>(m: Store<P>, op: Op<P>): Store<P>
  {
    match op
    case MintOp(c, p, t) => AfterMint(m, c, p, t)
    case RedeemOp(f, t) => AfterRedeem(m, f, t)
    case ReapOp(t) => Reaped(m, t)
  }

  /** The table after the calls of `ops`, in order. */
  function Run<P>(m: Store<P>, ops: seq<Op<P>>): Store<P>
    decreases |ops|
  {
    if ops == [] then m else Run(Apply(m, ops[0]), ops[1..])
  }

  /** How many calls in `ops` redeem `c` successfully. */
  function Successes<P>(m: Store<P>, ops: seq<Op<P>>, c: Code): nat
    decreases |ops|
  {
    if ops == [] then 0
    else
      (if ops[0] == RedeemOp(Str(c), ops[0].at) && RedeemResult(m, Str(c), ops[0].at).Ok? then 1 else 0)
      + Successes(Apply(m, ops[0]), ops[1..], c)
  }

  /** The answers to `|times|` redemptions of the same code, one after the other. */
  function RedeemAll<P>(m: Store<P>, c: Code, times: seq<int>): seq<Redemption<P>>
    decreases |times|
  {
    if times == [] then []
    else [RedeemResult(m, Str(c), times[0])] + RedeemAll(AfterRedeem(m, Str(c), times[0]), c, times[1..])
  }

  predicate NeverMints<P>(ops: seq<Op<P>>, c: Code)
  {
    forall i :: 0 <= i < |ops| ==> !(ops[i].MintOp? && ops[i].code == c)
  }

  predicate MintsOnlyHexCodes<P>(ops: seq<Op<P>>)
  {
    forall i :: 0 <= i < |ops| ==> ops[i].MintOp? ==> IsHexCode(ops[i].code)
  }

  /** Only a mint of `c` can put an entry under `c` or change it. */
  lemma ApplyNeverCreates<P>(m: Store<P>, op: Op<P>, c: Code)
    requires !(op.MintOp? && op.code == c)
    ensures c in Apply(m, op) ==> c in m && Apply(m, op)[c] == m[c]
  {
  }

  /**
   * Lifecycle: without a mint of `c`, an entry under `c` is never created,
   * resurrected or altered; it can only disappear.
   */
  lemma {:induction false} RunNeverCreates<P>(m: Store<P>, ops: seq<Op<P>>, c: Code)
    requires NeverMints(ops, c)
    ensures c in Run(m, ops) ==> c in m && Run(m, ops)[c] == m[c]
    decreases |ops|
  {
    if ops != [] {
      ApplyNeverCreates(m, ops[0], c);
      assert NeverMints(ops[1..], c) by {
        forall i | 0 <= i < |ops[1..]| ensures !(ops[1..][i].MintOp? && ops[1..][i].code == c) {
          assert ops[1..][i] == ops[i + 1];
        }
      }
      RunNeverCreates(Apply(m, ops[0]), ops[1..], c);
    }
  }

  /** Whatever the calls, the table holds only well-formed codes. */
  lemma {:induction false} RunKeepsWellFormed<P>(m: Store<P>, ops: seq<Op<P>>)
    requires WellFormed(m) && MintsOnlyHexCodes(ops)
    ensures WellFormed(Run(m, ops))
    decreases |ops|
  {
    if ops != [] {
      assert WellFormed(Apply(m, ops[0]));
      assert MintsOnlyHexCodes(ops[1..]) by {
        forall i | 0 <= i < |ops[1..]| && ops[1..][i].MintOp? ensures IsHexCode(ops[1..][i].code) {
          assert ops[1..][i] == ops[i + 1];
        }
      }
      RunKeepsWellFormed(Apply(m, ops[0]), ops[1..]);
    }
  }

  /** Once used, a code stays refused through any later calls that do not re-mint it. */
  lemma OneTimeUseAcrossCalls<P>(m: Store<P>, c: Code, now: int, ops: seq<Op<P>>, later: int)
    requires RedeemResult(m, Str(c), now).Ok?
    requires NeverMints(ops, c)
    ensures RedeemResult(Run(AfterRedeem(m, Str(c), now), ops), Str(c), later) == InvalidOrExpired
  {
    RunNeverCreates(AfterRedeem(m, Str(c), now), ops, c);
  }

  /**
   * Expiry does not wait for the sweep: once a code's expiry lies strictly
   * before `t0`, no interleaving of calls that does not re-mint it makes it
   * redeemable at any time from `t0` on.
   */
  lemma ExpiredStaysRefused<P>(m: Store<P>, c: Code, t0: int, ops: seq<Op<P>>, now: int)
    requires c != "" && c in m && m[c].expiresAt < t0 <= now
    requires NeverMints(ops, c)
    ensures RedeemResult(Run(m, ops), Str(c), now) == InvalidOrExpired
  {
    RunNeverCreates(m, ops, c);
  }

  /**
   * Replay protection: over any sequence of calls that does not re-mint `c`,
   * at most one redemption of `c` succeeds, and none does when `c` was not
   * in the table to begin with.
   */
  lemma {:induction false} AtMostOneSuccess<P>(m: Store<P>, ops: seq<Op<P>>, c: Code)
    requires NeverMints(ops, c)
    ensures Successes(m, ops, c) <= if c in m then 1 else 0
    decreases |ops|
  {
    if ops != [] {
      var m' := Apply(m, ops[0]);
      assert NeverMints(ops[1..], c) by {
        forall i | 0 <= i < |ops[1..]| ensures !(ops[1..][i].MintOp? && ops[1..][i].code == c) {
          assert ops[1..][i] == ops[i + 1];
        }
      }
      AtMostOneSuccess(m', ops[1..], c);
      ApplyNeverCreates(m, ops[0], c);
      if ops[0] == RedeemOp(Str(c), ops[0].at) && RedeemResult(m, Str(c), ops[0].at).Ok? {
        assert c in m && c !in m';
      }
    }
  }

  /**
   * K redemptions of one live code, one after the other and all before it
   * expires: the first gets the payload, every other one is refused.
   */
  lemma {:induction false} FirstRedemptionWins<P>(m: Store<P>, c: Code, times: seq<int>)
    requires WellFormed(m) && c in m
    requires forall i :: 0 <= i < |times| ==> times[i] <= m[c].expiresAt
    ensures |RedeemAll(m, c, times)| == |times|
    ensures |times| > 0 ==> RedeemAll(m, c, times)[0] == Ok(m[c].payload)
    ensures forall i :: 0 < i < |times| ==> RedeemAll(m, c, times)[i] == InvalidOrExpired
  {
    if times != [] {
      UsedCodeAlwaysRefused(AfterRedeem(m, Str(c), times[0]), c, times[1..]);
    }
  }

  /** Every redemption of a code that is not in the table is refused. */
  lemma {:induction false} UsedCodeAlwaysRefused<P>(m: Store<P>, c: Code, times: seq<int>)
    requires c != "" && c !in m
    ensures |RedeemAll(m, c, times)| == |times|
    ensures forall i :: 0 <= i < |times| ==> RedeemAll(m, c, times)[i] == InvalidOrExpired
    decreases |times|
  {
    if times != [] {
      UsedCodeAlwaysRefused(AfterRedeem(m, Str(c), times[0]), c, times[1..]);
    }
  }
}
