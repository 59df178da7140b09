/** What the board credits a stored AI run with: the score of the target its wins were
    verified against, read back from the row. */
module Credit {
  import opened Bytes
  import opened Score
  import opened Tiers
  import opened Events
  import opened Submission
  import HexCodec

  /** The easiest target, standing in for one that cannot be read. */
  function Easiest(): (t: Target)
    ensures AllOnes(t)
  {
    seq(32, _ => 255)
  }

  predicate AllOnes(bs: seq<byte>) {
    forall i :: 0 <= i < |bs| ==> bs[i] == 255
  }

  /** The target of a row as the board reads it. */
  function BoardTarget(r: RunRecord): (t: Target) {
    match HexCodec.ParseResult(r.target)
    case Parsed(t) => t
    case Refused => Easiest()
    case Aborted => Easiest()
  }

  /** Attempts per win credited to a row. */
  function Credited(r: RunRecord): (x: real) {
    r.statement.ScoreOf(BoardTarget(r))
  }

  lemma {:induction false} AtMostAllOnes(a: seq<byte>, b: seq<byte>)
    requires |a| == |b| && AllOnes(b)
    ensures LeValue(a) <= LeValue(b)
  {
    if |a| > 0 { AtMostAllOnes(a[1..], b[1..]); }
  }

  /** The stand-in never credits more than the target it stands in for, under either
      statement. */
  lemma FallbackUnderstates(s: Statement, t: Target, easiest: Target)
    requires AllOnes(easiest)
    ensures s.ScoreOf(easiest) <= s.ScoreOf(t)
  {
    AtMostAllOnes(t, easiest);
    match s
    case Dense => ScoreAntitone(t, easiest);
    case CanonicalMoe => MoeScoreAntitone(t, easiest);
  }

  /** So a row whose target cannot be read is never credited more than by any target. */
  lemma UnreadableUnderstates(r: RunRecord, t: Target)
    requires !HexCodec.ParseResult(r.target).Parsed?
    ensures Credited(r) <= r.statement.ScoreOf(t)
  {
    FallbackUnderstates(r.statement, t, Easiest());
  }

  /** Every stored run is credited by exactly the target that each of its k wins was
      verified against, under the same statement; the fallback is never taken. */
  lemma CreditIsVerifiedTarget(c: Config, steps: seq<Step>, verify: Verifier, r: RunRecord) returns (w: Voucher)
    requires var s := Run(c, steps, verify); s.up && r in s.ledger.runs
    ensures Vouches(w, r, Run(c, steps, verify).history, verify)
    ensures BoardTarget(r) == w.target && Credited(r) == r.statement.ScoreOf(w.target)
  {
    StoredRunsAreVerified(c, steps, verify, r);
    w :| Vouches(w, r, Run(c, steps, verify).history, verify);
    HexCodec.HexRoundTrip(w.target);
  }

  /** From request to board: a run of a nonce issued at a tier, submitted under the
      statement it was issued for, is credited exactly the granted attempts per win,
      whatever the client asked for and whatever happened in between. */
  lemma CreditIsGrantedTier(c: Config, steps: seq<Step>, verify: Verifier, r: RunRecord, requested: nat)
    requires var s := Run(c, steps, verify); s.up && r in s.ledger.runs
    requires var issued := TargetForAttempts(Grant(requested), r.statement);
             issued.Some? && OneTarget(Run(c, steps, verify).history.mints, r.nonce, issued.value)
    ensures Credited(r) == Grant(requested) as real
  {
    MintCannotFail(r.statement, requested);
    StoredTargetIsIssued(c, steps, verify, r, TargetForAttempts(Grant(requested), r.statement).value);
  }

  /** A run of an untiered challenge is credited by the target configured for its
      statement, when every boot had the same configuration. */
  lemma CreditIsConfigured(c: Config, steps: seq<Step>, verify: Verifier, r: RunRecord, d: Config)
    requires var s := Run(c, steps, verify); s.up && r in s.ledger.runs && Untiered(s.history.mints, r.nonce)
    requires OnlyConfig(Run(c, steps, verify).history.configs, d)
    ensures Credited(r) == if r.statement == Dense then DenseScore(d.denseTarget) else MoeScore(d.moeTarget)
  {
    UntieredTargetIsConfigured(c, steps, verify, r);
    HexCodec.HexRoundTrip(d.denseTarget);
    HexCodec.HexRoundTrip(d.moeTarget);
  }

  lemma CreditedAt(c: Config, steps: seq<Step>, verify: Verifier, r: RunRecord, t: Target)
    requires var s := Run(c, steps, verify); s.up && r in s.ledger.runs && OneTarget(s.history.mints, r.nonce, t)
    ensures Credited(r) == r.statement.ScoreOf(t)
  {
    StoredTargetIsIssued(c, steps, verify, r, t);
  }

  /** A tiered challenge does not pin the statement, and credit moves in lockstep with the
      threshold: for any target t, a run of t under the scaled statement is credited what a
      dense run of the target 2^16 times t is, and one attempt, the least there is, when
      that target does not exist. */
  lemma CreditFollowsThreshold(c: Config, steps: seq<Step>, verify: Verifier, scaled: RunRecord, dense: RunRecord,
                               t: Target, u: Target)
    requires var s := Run(c, steps, verify);
             && s.up && scaled in s.ledger.runs && scaled.statement == CanonicalMoe
             && dense in s.ledger.runs && dense.statement == Dense
             && OneTarget(s.history.mints, scaled.nonce, t) && OneTarget(s.history.mints, dense.nonce, u)
    ensures LeValue(u) == LeValue(t) * MOE_FACTOR ==> Credited(scaled) == Credited(dense)
    ensures LeValue(t) * MOE_FACTOR >= SPACE ==> Credited(scaled) == 1.0 <= Credited(dense)
  {
    CreditedAt(c, steps, verify, scaled, t);
    CreditedAt(c, steps, verify, dense, u);
    CrossStatement(t, u);
  }

  /** What a one-bit target is worth under either statement. */
  function BitCredit(s: Statement, bit: nat): (n: nat)
    requires bit < 256
  {
    match s
    case Dense => Power(256 - bit)
    case CanonicalMoe => if bit < 240 then Power(240 - bit) else 1
  }

  /** The credit of a one-bit target, from bit 53 on, under either statement: 2^16 times
      more or fewer attempts under the other one below bit 240, and a single attempt under
      the scaled one from there on. */
  lemma CreditOfBit(c: Config, steps: seq<Step>, verify: Verifier, r: RunRecord, t: Target, bit: nat)
    requires var s := Run(c, steps, verify); s.up && r in s.ledger.runs && OneTarget(s.history.mints, r.nonce, t)
    requires 53 <= bit < 256 && t == Pow2Target(bit)
    ensures Credited(r) == BitCredit(r.statement, bit) as real
  {
    CreditedAt(c, steps, verify, r, t);
    match r.statement
    case Dense => BitScore(bit);
    case CanonicalMoe => if bit < 240 { ScaledBitScore(bit); } else { UnscaledBitScore(bit); }
  }

  lemma ScaledBitScore(bit: nat)
    requires 53 <= bit < 240
    ensures MoeScore(Pow2Target(bit)) == Power(240 - bit) as real
  {
    BitSum(bit);
    BitSum(bit + 16);
    FactorIsPower();
    PowerSum(bit, 16);
    CrossStatement(Pow2Target(bit), Pow2Target(bit + 16));
    BitScore(bit + 16);
  }

  lemma UnscaledBitScore(bit: nat)
    requires 240 <= bit < 256
    ensures MoeScore(Pow2Target(bit)) == 1.0
  {
    BitSum(bit);
    OverSpace(bit);
    CrossStatement(Pow2Target(bit), Pow2Target(bit));
  }

  lemma OverSpace(bit: nat)
    requires bit >= 240
    ensures Power(bit) * MOE_FACTOR >= SPACE
  {
    FactorIsPower();
    PowerSum(bit, 16);
    SpaceIsPower();
    PowerMono(256, bit + 16);
  }
}
