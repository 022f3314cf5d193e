/** Fee arithmetic: the program's checked u64 version, and the relayer's and
    the SDK's, which multiply and divide JavaScript numbers. */
module Fees {
  import opened Outcomes
  import opened Doubles

  const U64_MAX: nat := 0xFFFF_FFFF_FFFF_FFFF
  const MAX_CLIENT_DEPOSIT_AMOUNT: nat := 9_007_199_254_740_991
  const MAX_PROTOCOL_FEE_BPS: nat := 500
  const BPS_DENOMINATOR: nat := 10_000

  /** Who gets how much of one withdrawn denomination. */
  datatype Split = Split(protocolFee: nat, relayerFee: nat, recipientAmount: nat) {
    function Total(): nat { protocolFee + relayerFee + recipientAmount }
  }

  // ---------- on chain ----------

  datatype FeeError = FeeMathOverflow | CombinedFeeTooHigh | FeeTooHigh

  function CheckedMul(a: nat, b: nat): Option<nat> {
    if a * b <= U64_MAX then Some(a * b) else None
  }

  function CheckedAdd(a: nat, b: nat): Option<nat> {
    if a + b <= U64_MAX then Some(a + b) else None
  }

  function CheckedSub(a: nat, b: nat): Option<nat> {
    if b <= a then Some(a - b) else None
  }

  function ComputeProtocolFee(depositAmount: nat, protocolFeeBps: nat): Result<nat, FeeError> {
    match CheckedMul(depositAmount, protocolFeeBps)
    case None => Err(FeeMathOverflow)
    case Some(product) => Ok(product / BPS_DENOMINATOR)
  }

  function ComputeRecipientAmount(depositAmount: nat, protocolFee: nat, relayerFee: nat): Result<nat, FeeError> {
    match CheckedAdd(protocolFee, relayerFee)
    case None => Err(FeeMathOverflow)
    case Some(totalFee) =>
      if totalFee >= depositAmount then Err(CombinedFeeTooHigh)
      else match CheckedSub(depositAmount, totalFee)
        case None => Err(FeeMathOverflow)
        case Some(amount) => Ok(amount)
  }

  /** The split paid by a fee-capable pool. */
  function FeePoolSplit(depositAmount: nat, protocolFeeBps: nat, relayerFee: nat): Result<Split, FeeError> {
    match ComputeProtocolFee(depositAmount, protocolFeeBps)
    case Err(e) => Err(e)
    case Ok(protocolFee) =>
      match ComputeRecipientAmount(depositAmount, protocolFee, relayerFee)
      case Err(e) => Err(e)
      case Ok(amount) => Ok(Split(protocolFee, relayerFee, amount))
  }

  /** The split paid by a pool without protocol fees. */
  function PlainPoolSplit(depositAmount: nat, relayerFee: nat): Result<Split, FeeError> {
    if relayerFee >= depositAmount then Err(FeeTooHigh)
    else Ok(Split(0, relayerFee, depositAmount - relayerFee))
  }

  // ---------- off chain ----------

  /** Math.floor((amount * bps) / 10_000), the product and the quotient rounded to doubles. */
  function FloorOfShare(amount: nat, bps: nat): nat {
    FloorOfDouble(Product(amount, bps), BPS_DENOMINATOR)
  }

  /** The relayer's breakdown, or None where it throws. */
  function RelayerBreakdown(depositAmount: nat, protocolFeeBps: nat, relayerFee: nat): Option<Split> {
    var protocolFee := FloorOfShare(depositAmount, protocolFeeBps);
    var totalFee := protocolFee + relayerFee;
    if totalFee >= depositAmount then None
    else Some(Split(protocolFee, relayerFee, depositAmount - totalFee))
  }

  /** The fee the relayer charges, or None where it refuses the parameters. */
  function CalculateFee(amount: int, feeBps: int, minFee: int): Option<nat> {
    if amount <= 0 || feeBps < 0 || minFee < 0 then None
    else
      var bpsFee := FloorOfShare(amount, feeBps);
      Some(if bpsFee < minFee then minFee else bpsFee)
  }

  function SdkProtocolFee(amount: nat, protocolFeeBps: nat): nat {
    FloorOfShare(amount, protocolFeeBps)
  }

  function SdkRelayerFee(amount: nat, feeBps: nat, minFee: nat): nat {
    var bpsFee := FloorOfShare(amount, feeBps);
    if bpsFee >= minFee then bpsFee else minFee
  }

  /** The SDK's estimate, or None where it throws. */
  function SdkBreakdown(depositAmount: nat, protocolFeeBps: nat, relayerFee: nat): Option<Split> {
    var totalFee := SdkProtocolFee(depositAmount, protocolFeeBps) + relayerFee;
    if totalFee >= depositAmount then None
    else Some(Split(SdkProtocolFee(depositAmount, protocolFeeBps), relayerFee, depositAmount - totalFee))
  }

  // ---------- agreement ----------

  predicate ValidDenomination(depositAmount: nat) {
    0 < depositAmount <= MAX_CLIENT_DEPOSIT_AMOUNT
  }

  lemma ProtocolFeeBounds(depositAmount: nat, protocolFeeBps: nat)
    requires ValidDenomination(depositAmount) && protocolFeeBps <= MAX_PROTOCOL_FEE_BPS
    ensures ComputeProtocolFee(depositAmount, protocolFeeBps).Ok?
    ensures var fee := ComputeProtocolFee(depositAmount, protocolFeeBps).value;
            && fee * BPS_DENOMINATOR <= depositAmount * protocolFeeBps < (fee + 1) * BPS_DENOMINATOR
            && 20 * fee <= depositAmount
  {
    assert depositAmount * protocolFeeBps <= depositAmount * MAX_PROTOCOL_FEE_BPS;
  }

  /** Exactly when rounding does not change the protocol fee: the rounded product,
      scaled to 53 bits, stays half a unit clear of the neighbouring multiples. */
  predicate FeeIsExact(depositAmount: nat, protocolFeeBps: nat) {
    var fee := depositAmount * protocolFeeBps / BPS_DENOMINATOR;
    var product := Product(depositAmount, protocolFeeBps);
    var scale := Scale(product, BPS_DENOMINATOR);
    BPS_DENOMINATOR * scale * fee <= product * scale + BPS_DENOMINATOR / 2 < BPS_DENOMINATOR * scale * (fee + 1)
  }

  /** Exactly when rounding does not lower it: the first half of that. */
  predicate FeeIsNotBelow(depositAmount: nat, protocolFeeBps: nat) {
    var fee := depositAmount * protocolFeeBps / BPS_DENOMINATOR;
    var product := Product(depositAmount, protocolFeeBps);
    var scale := Scale(product, BPS_DENOMINATOR);
    BPS_DENOMINATOR * scale * fee <= product * scale + BPS_DENOMINATOR / 2
  }

  lemma ProductIsBounded(depositAmount: nat, protocolFeeBps: nat)
    requires ValidDenomination(depositAmount) && protocolFeeBps <= MAX_PROTOCOL_FEE_BPS
    ensures 2 * Product(depositAmount, protocolFeeBps) < BPS_DENOMINATOR * TWO_TO_53
  {
    Monotone(depositAmount, protocolFeeBps, MAX_PROTOCOL_FEE_BPS);
    var x := depositAmount * protocolFeeBps;
    RoundedIsBounded(x);
  }

  lemma FeeIsExactIff(depositAmount: nat, protocolFeeBps: nat)
    requires ValidDenomination(depositAmount) && protocolFeeBps <= MAX_PROTOCOL_FEE_BPS
    ensures FloorOfShare(depositAmount, protocolFeeBps) == depositAmount * protocolFeeBps / BPS_DENOMINATOR
       <==> FeeIsExact(depositAmount, protocolFeeBps)
  {
    var fee := depositAmount * protocolFeeBps / BPS_DENOMINATOR;
    var product := Product(depositAmount, protocolFeeBps);
    var scale := Scale(product, BPS_DENOMINATOR);
    ProductIsBounded(depositAmount, protocolFeeBps);
    QuotientInClosedForm(product, BPS_DENOMINATOR / 2);
    QuotientIffBetween(product * scale + BPS_DENOMINATOR / 2, BPS_DENOMINATOR * scale, fee);
  }

  lemma FeeIsNotBelowIff(depositAmount: nat, protocolFeeBps: nat)
    requires ValidDenomination(depositAmount) && protocolFeeBps <= MAX_PROTOCOL_FEE_BPS
    ensures FloorOfShare(depositAmount, protocolFeeBps) >= depositAmount * protocolFeeBps / BPS_DENOMINATOR
       <==> FeeIsNotBelow(depositAmount, protocolFeeBps)
  {
    var fee := depositAmount * protocolFeeBps / BPS_DENOMINATOR;
    var product := Product(depositAmount, protocolFeeBps);
    var scale := Scale(product, BPS_DENOMINATOR);
    ProductIsBounded(depositAmount, protocolFeeBps);
    QuotientInClosedForm(product, BPS_DENOMINATOR / 2);
    QuotientIffAtLeast(product * scale + BPS_DENOMINATOR / 2, BPS_DENOMINATOR * scale, fee);
  }

  lemma QuotientIffAtLeast(z: nat, m: nat, n: nat)
    requires m > 0
    ensures z / m >= n <==> m * n <= z
  {
    var q := z / m;
    assert m * q <= z < m * q + m;
    if q >= n {
      Monotone(m, n, q);
    } else {
      Monotone(m, q + 1, n);
      Distribute(m, q, 1);
    }
  }

  lemma QuotientIffBetween(z: nat, m: nat, n: nat)
    requires m > 0
    ensures z / m == n <==> m * n <= z < m * (n + 1)
  {
    Distribute(m, n, 1);
    if m * n <= z < m * (n + 1) {
      QuotientIs(z, m, n, z - m * n);
    }
  }

  /** A product that a client can represent makes the fee exact. */
  lemma SmallProductIsExact(depositAmount: nat, protocolFeeBps: nat)
    requires depositAmount * protocolFeeBps < TWO_TO_53
    ensures FeeIsExact(depositAmount, protocolFeeBps)
  {
    var x := depositAmount * protocolFeeBps;
    var fee := x / BPS_DENOMINATOR;
    var scale := Scale(x, BPS_DENOMINATOR);
    SmallIntegerIsExact(x);
    if x > 0 {
      assert MerkleTree.Pow2(13) == 8192;
      ScaleAtLeast(x, BPS_DENOMINATOR, 13);
    }
    StaysClear(x, scale, fee, x % BPS_DENOMINATOR);
  }

  lemma StaysClear(x: nat, scale: nat, fee: nat, rest: nat)
    requires x == BPS_DENOMINATOR * fee + rest && rest < BPS_DENOMINATOR
    requires scale > BPS_DENOMINATOR / 2 || (x == 0 && scale == 1)
    ensures BPS_DENOMINATOR * scale * fee <= x * scale + BPS_DENOMINATOR / 2 < BPS_DENOMINATOR * scale * (fee + 1)
  {
    var whole := scale * fee;
    assert x * scale == BPS_DENOMINATOR * whole + rest * scale;
    assert rest * scale <= (BPS_DENOMINATOR - 1) * scale by { Monotone(scale, rest, BPS_DENOMINATOR - 1); }
    assert BPS_DENOMINATOR * scale * fee == BPS_DENOMINATOR * whole;
    assert BPS_DENOMINATOR * scale * (fee + 1) == BPS_DENOMINATOR * whole + BPS_DENOMINATOR * scale;
  }

  /** The program, the relayer and the SDK accept this relayer fee, or refuse it,
      together, and compute the same split. */
  predicate SplitsAgree(depositAmount: nat, protocolFeeBps: nat, relayerFee: nat) {
    var onChain := FeePoolSplit(depositAmount, protocolFeeBps, relayerFee);
    var estimate := SdkBreakdown(depositAmount, protocolFeeBps, relayerFee);
    && RelayerBreakdown(depositAmount, protocolFeeBps, relayerFee) == estimate
    && (onChain.Ok? <==> estimate.Some?)
    && (onChain.Ok? ==> estimate == Some(onChain.value))
  }

  /** What a split pays adds up to the denomination and leaves the recipient something. */
  predicate Conserves(s: Split, depositAmount: nat, relayerFee: nat) {
    s.Total() == depositAmount && s.relayerFee == relayerFee && s.recipientAmount > 0
  }

  /** On every denomination and protocol rate a pool can be created with, and
      every u64 relayer fee: each of the three conserves the denomination, the
      program's protocol fee is the exact rate rounded down, and the three agree
      if the clients' protocol fee is exact. */
  lemma ThreeSplitsAgree(depositAmount: nat, protocolFeeBps: nat, relayerFee: nat)
    requires ValidDenomination(depositAmount) && protocolFeeBps <= MAX_PROTOCOL_FEE_BPS
    requires relayerFee <= U64_MAX
    ensures var onChain := FeePoolSplit(depositAmount, protocolFeeBps, relayerFee);
            var estimate := SdkBreakdown(depositAmount, protocolFeeBps, relayerFee);
            && RelayerBreakdown(depositAmount, protocolFeeBps, relayerFee) == estimate
            && (estimate.Some? ==> Conserves(estimate.value, depositAmount, relayerFee))
            && (onChain.Ok? ==>
                  && Conserves(onChain.value, depositAmount, relayerFee)
                  && onChain.value.protocolFee == depositAmount * protocolFeeBps / BPS_DENOMINATOR)
            && (FeeIsExact(depositAmount, protocolFeeBps) ==> SplitsAgree(depositAmount, protocolFeeBps, relayerFee))
  {
    ProtocolFeeBounds(depositAmount, protocolFeeBps);
    FeeIsExactIff(depositAmount, protocolFeeBps);
  }

  /** The three agree on every relayer fee exactly when the clients' protocol fee is exact. */
  lemma SplitsAgreeIff(depositAmount: nat, protocolFeeBps: nat)
    requires ValidDenomination(depositAmount) && protocolFeeBps <= MAX_PROTOCOL_FEE_BPS
    ensures (forall relayerFee: nat :: relayerFee <= U64_MAX ==> SplitsAgree(depositAmount, protocolFeeBps, relayerFee))
       <==> FeeIsExact(depositAmount, protocolFeeBps)
  {
    FeeIsExactIff(depositAmount, protocolFeeBps);
    forall relayerFee: nat | relayerFee <= U64_MAX
      ensures FeeIsExact(depositAmount, protocolFeeBps) ==> SplitsAgree(depositAmount, protocolFeeBps, relayerFee)
    {
      ThreeSplitsAgree(depositAmount, protocolFeeBps, relayerFee);
    }
    if !FeeIsExact(depositAmount, protocolFeeBps) {
      ProtocolFeeBounds(depositAmount, protocolFeeBps);
      assert !SplitsAgree(depositAmount, protocolFeeBps, 0);
    }
  }

  /** A relayer fee that the clients accept is never refused by the program. */
  ghost predicate NeverRefused(depositAmount: nat, protocolFeeBps: nat) {
    forall relayerFee: nat :: relayerFee <= U64_MAX && SdkBreakdown(depositAmount, protocolFeeBps, relayerFee).Some? ==>
      FeePoolSplit(depositAmount, protocolFeeBps, relayerFee).Ok?
  }

  /** It never is, exactly when rounding does not lower the clients' protocol fee. */
  lemma NeverRefusedIff(depositAmount: nat, protocolFeeBps: nat)
    requires ValidDenomination(depositAmount) && protocolFeeBps <= MAX_PROTOCOL_FEE_BPS
    ensures NeverRefused(depositAmount, protocolFeeBps) <==> FeeIsNotBelow(depositAmount, protocolFeeBps)
  {
    FeeIsNotBelowIff(depositAmount, protocolFeeBps);
    ProtocolFeeBounds(depositAmount, protocolFeeBps);
    var clientFee := FloorOfShare(depositAmount, protocolFeeBps);
    if clientFee < ComputeProtocolFee(depositAmount, protocolFeeBps).value {
      var relayerFee := depositAmount - clientFee - 1;
      assert SdkBreakdown(depositAmount, protocolFeeBps, relayerFee).Some?;
      assert FeePoolSplit(depositAmount, protocolFeeBps, relayerFee).Err?;
    }
  }

  /** So they agree on every pool whose rate times denomination is a safe integer,
      such as any pool of at most 18014398509481 units. */
  lemma SmallPoolsAgree(depositAmount: nat, protocolFeeBps: nat, relayerFee: nat)
    requires ValidDenomination(depositAmount) && protocolFeeBps <= MAX_PROTOCOL_FEE_BPS
    requires relayerFee <= U64_MAX
    requires depositAmount * protocolFeeBps <= MAX_CLIENT_DEPOSIT_AMOUNT || depositAmount <= 18_014_398_509_481
    ensures SplitsAgree(depositAmount, protocolFeeBps, relayerFee)
  {
    assert depositAmount * protocolFeeBps <= depositAmount * MAX_PROTOCOL_FEE_BPS;
    SmallProductIsExact(depositAmount, protocolFeeBps);
    ThreeSplitsAgree(depositAmount, protocolFeeBps, relayerFee);
  }

  /** A pool that can be created and on which they do not agree: the clients
      compute one unit more. */
  lemma LargePoolDisagrees()
    ensures ValidDenomination(6_474_206_544_261_692)
    ensures ComputeProtocolFee(6_474_206_544_261_692, 390) == Ok(252_494_055_226_205)
    ensures FloorOfShare(6_474_206_544_261_692, 390) == 252_494_055_226_206
    ensures !FeeIsExact(6_474_206_544_261_692, 390)
  {
    LargeProduct();
    assert Scale(2_524_940_552_262_060_032, BPS_DENOMINATOR) == 32;
    FeeIsExactIff(6_474_206_544_261_692, 390);
  }

  /** And one on which the clients compute one unit less, so that they accept a
      relayer fee that the program refuses. */
  lemma LargePoolRefuses()
    ensures ValidDenomination(7_411_047_126_444_500)
    ensures ComputeProtocolFee(7_411_047_126_444_500, 20) == Ok(14_822_094_252_889)
    ensures FloorOfShare(7_411_047_126_444_500, 20) == 14_822_094_252_888
    ensures SdkBreakdown(7_411_047_126_444_500, 20, 7_396_225_032_191_611).Some?
    ensures FeePoolSplit(7_411_047_126_444_500, 20, 7_396_225_032_191_611) == Err(CombinedFeeTooHigh)
  {
    LargeProductBelow();
    assert Scale(148_220_942_528_889_984, BPS_DENOMINATOR) == 512;
  }

  lemma LargeProductBelow()
    ensures Product(7_411_047_126_444_500, 20) == 148_220_942_528_889_984
  {
    assert Granule(148_220_942_528_890_000, 1) == 32;
  }

  lemma LargeProduct()
    ensures Product(6_474_206_544_261_692, 390) == 2_524_940_552_262_060_032
  {
    assert Granule(2_524_940_552_262_059_880, 1) == 512;
  }

  /** The same for pools without protocol fees, which clients read as rate 0. */
  lemma PlainSplitAgrees(depositAmount: nat, relayerFee: nat)
    requires ValidDenomination(depositAmount)
    ensures var onChain := PlainPoolSplit(depositAmount, relayerFee);
            && (onChain.Ok? <==> SdkBreakdown(depositAmount, 0, relayerFee).Some?)
            && (onChain.Ok? <==> RelayerBreakdown(depositAmount, 0, relayerFee).Some?)
            && (onChain.Ok? ==>
                  && SdkBreakdown(depositAmount, 0, relayerFee) == Some(onChain.value)
                  && RelayerBreakdown(depositAmount, 0, relayerFee) == Some(onChain.value)
                  && onChain.value.Total() == depositAmount
                  && onChain.value.recipientAmount > 0)
  {
    SmallIntegerIsExact(0);
  }

  /** A share is exact whenever the product is below 2^53, at any rate. */
  lemma SmallShareIsExact(amount: nat, bps: nat)
    requires amount * bps < TWO_TO_53
    ensures FloorOfShare(amount, bps) == amount * bps / BPS_DENOMINATOR
  {
    var product := amount * bps;
    var scale := Scale(product, BPS_DENOMINATOR);
    SmallIntegerIsExact(product);
    SmallProductIsExact(amount, bps);
    QuotientInClosedForm(product, BPS_DENOMINATOR / 2);
    QuotientIffBetween(product * scale + BPS_DENOMINATOR / 2, BPS_DENOMINATOR * scale, product / BPS_DENOMINATOR);
  }

  /** The relayer's fee is refused exactly for an amount that is not positive or a
      negative rate or minimum; else it is at least the minimum and at least the
      share, and one of them, the share being exact on a safe product. */
  lemma CalculateFeeIsTheLarger(amount: int, feeBps: int, minFee: int)
    ensures CalculateFee(amount, feeBps, minFee).Some? <==> amount > 0 && feeBps >= 0 && minFee >= 0
    ensures amount > 0 && feeBps >= 0 && minFee >= 0 ==>
              var fee := CalculateFee(amount, feeBps, minFee).value;
              && fee >= minFee && fee >= FloorOfShare(amount, feeBps)
              && (fee == minFee || fee == FloorOfShare(amount, feeBps))
              && (amount * feeBps < TWO_TO_53 ==>
                    fee == if amount * feeBps / BPS_DENOMINATOR < minFee then minFee else amount * feeBps / BPS_DENOMINATOR)
  {
    if amount > 0 && feeBps >= 0 && minFee >= 0 {
      if amount * feeBps < TWO_TO_53 {
        SmallProductNonNegative(amount, feeBps);
        SmallShareIsExact(amount, feeBps);
      }
    }
  }

  lemma SmallProductNonNegative(a: nat, b: nat)
    ensures a * b >= 0
  {
  }

  /** The fee a client signs is the fee the relayer expects, when both use the
      same published rate and minimum: both round alike. */
  lemma SignedFeeIsExpected(amount: nat, feeBps: nat, minFee: nat)
    requires ValidDenomination(amount)
    ensures CalculateFee(amount, feeBps, minFee) == Some(SdkRelayerFee(amount, feeBps, minFee))
  {
  }
}
