/**
 Shamir secret sharing of a 32-byte secret over GF(2^8).
 Errors carry the source's codes; the random coefficients are a parameter.
 */
module Shamir {
  import opened GF256
  import opened Polynomial
  import opened Results
  import opened Pigeonhole

  datatype Share = Share(index: Elem, y: seq<Elem>)

  const SECRET_SIZE := 32

  /** Byte i of the random bytes drawn for secret position p. */
  type Rng = (nat, nat) -> Elem

  // ---------- share indices: the byte that counts k increments from 0

  function Inc(b: Elem): Elem { b + 1 }

  function Byte(k: nat): Elem { if k == 0 then 0 else Inc(Byte(k - 1)) }

  ghost function ToNat(b: Elem, n: nat): nat
    decreases n
  {
    if n == 0 then 0 else (if Odd(b) then 1 else 0) + 2 * ToNat(Shr(b), n - 1)
  }

  lemma IncBits(b: Elem)
    ensures !Odd(b) ==> Odd(Inc(b)) && Shr(Inc(b)) == Shr(b)
    ensures Odd(b) && b != 255 ==> !Odd(Inc(b)) && Shr(Inc(b)) == Inc(Shr(b))
    ensures Shr(b) != 255
  {}

  lemma {:induction false} IncNat(b: Elem, n: nat)
    requires b != 255 && ToNat(b, n) < Pow2(n) - 1
    ensures ToNat(Inc(b), n) == ToNat(b, n) + 1
    decreases n
  {
    hide Inc, Odd, Shr;
    if n > 0 {
      IncBits(b);
      if Odd(b) { IncNat(Shr(b), n - 1); }
    }
  }

  ghost function Pow2(n: nat): nat { if n == 0 then 1 else 2 * Pow2(n - 1) }

  lemma {:induction false} ByteNat(k: nat)
    requires k < 256
    ensures ToNat(Byte(k), 8) == k
    decreases k
  {
    hide Inc, Odd, Shr;
    assert Pow2(3) == 8 && Pow2(6) == 64 && Pow2(8) == 256;
    if k == 0 {
      ZeroNat(8);
    } else {
      ByteNat(k - 1);
      FullNat();
      IncNat(Byte(k - 1), 8);
    }
  }

  lemma {:induction false} ZeroNat(n: nat)
    ensures ToNat(0, n) == 0
    decreases n
  {
    if n > 0 { assert Shr(0) == 0 && !Odd(0); ZeroNat(n - 1); }
  }

  lemma FullNat()
    ensures ToNat(255, 8) == 255
  {
    assert Odd(255) && Odd(127) && Odd(63) && Odd(31) && Odd(15) && Odd(7) && Odd(3) && Odd(1);
    assert Shr(255) == 127 && Shr(127) == 63 && Shr(63) == 31 && Shr(31) == 15 && Shr(15) == 7 && Shr(7) == 3 && Shr(3) == 1;
    hide Odd, Shr;
    assert ToNat(1, 1) == 1;
    assert ToNat(7, 3) == 7;
    assert ToNat(31, 5) == 31;
    assert ToNat(127, 7) == 127;
  }

  // ---------- splitting

  function Coefficients(secretByte: Elem, M: nat, rng: Rng, p: nat): (cs: Poly)
    requires 0 < M
    ensures |cs| == M
  {
    [secretByte] + seq(M - 1, i requires 0 <= i => rng(p, i))
  }

  /** The polynomial of secret position p, evaluated at x. */
  function ShareByte(secret: seq<Elem>, M: nat, rng: Rng, p: nat, x: Elem): Elem
    requires 0 < M && p < |secret|
  {
    Eval(Coefficients(secret[p], M, rng, p), x)
  }

  lemma ShareByteDef(secret: seq<Elem>, M: nat, rng: Rng, p: nat, x: Elem)
    requires 0 < M && p < |secret|
    ensures ShareByte(secret, M, rng, p, x) == Eval(Coefficients(secret[p], M, rng, p), x)
  {}

  function ShareOf(secret: seq<Elem>, M: nat, rng: Rng, k: nat): Share
    requires 0 < M
  {
    Share(Byte(k + 1), seq(|secret|, p requires 0 <= p < |secret| => ShareByte(secret, M, rng, p, Byte(k + 1))))
  }

  function Shares(secret: seq<Elem>, N: nat, M: nat, rng: Rng): seq<Share>
    requires 0 < M
  {
    seq(N, k requires 0 <= k => ShareOf(secret, M, rng, k))
  }

  function SplitSpec(secret: seq<Elem>, N: nat, M: nat, rng: Rng): Result<seq<Share>> {
    if |secret| != SECRET_SIZE then Err(163)
    else if M == 0 || M > N then Err(164)
    else Ok(Shares(secret, N, M, rng))
  }

  /** The inner loop of shamir_split: the powers of x are accumulated, not nested. */
  method EvaluateAt(coeffs: Poly, x: Elem) returns (y: Elem)
    ensures y == Eval(coeffs, x)
  {
    hide Add, Mul;
    y := 0;
    var xPow: Elem := 1;
    MulOne(Eval(coeffs, x));
    AddZero(Eval(coeffs, x));
    for i := 0 to |coeffs|
      invariant Add(y, Mul(xPow, Eval(coeffs[i..], x))) == Eval(coeffs, x)
    {
      HornerStep(y, xPow, coeffs[i..], x);
      assert coeffs[i..][1..] == coeffs[i + 1..];
      var term := GfMul(coeffs[i], xPow);
      y := Add(y, term);
      xPow := GfMul(xPow, x);
    }
    MulZero(xPow);
    AddZero(y);
  }

  lemma HornerStep(y: Elem, xPow: Elem, p: Poly, x: Elem)
    requires p != []
    ensures Add(y, Mul(xPow, Eval(p, x)))
         == Add(Add(y, Mul(p[0], xPow)), Mul(Mul(xPow, x), Eval(p[1..], x)))
  {
    hide Add, Mul;
    var e := Eval(p[1..], x);
    MulAdd(xPow, p[0], Mul(x, e));
    MulComm(xPow, p[0]);
    MulAssoc(xPow, x, e);
    AddAssoc(y, Mul(p[0], xPow), Mul(xPow, Mul(x, e)));
  }

  /** The uint8_t loop counters of shamir_split. */
  function NextCounter(x: nat): nat { (x + 1) % 256 }

  ghost function Counter(k: nat): nat { if k == 0 then 1 else NextCounter(Counter(k - 1)) }

  /** The loops `for (uint8_t x = 1; x <= N; ++x)` reach a failing guard exactly when N is below 255. */
  lemma CounterExits(N: nat)
    requires N <= 255
    ensures (exists k: nat :: Counter(k) > N) <==> N < 255
  {
    if N < 255 {
      CounterValue(N);
      assert Counter(N) > N;
    } else {
      forall k: nat ensures Counter(k) <= 255 {}
    }
  }

  lemma {:induction false} CounterValue(k: nat)
    requires k < 255
    ensures Counter(k) == k + 1
    decreases k
  {
    if k > 0 { CounterValue(k - 1); }
  }

  /** Share k is in place and its first `done` bytes are computed. */
  ghost predicate Filled(s: Share, secret: seq<Elem>, M: nat, rng: Rng, k: nat, done: nat)
    requires 0 < M
  {
    && s.index == Byte(k + 1)
    && |s.y| == |secret|
    && forall p :: 0 <= p < done && p < |secret| ==> s.y[p] == ShareByte(secret, M, rng, p, Byte(k + 1))
  }

  /** The body of shamir_split's loop over byte positions. */
  method FillPosition(before: seq<Share>, secret: seq<Elem>, M: nat, rng: Rng, bytePos: nat) returns (shares: seq<Share>)
    requires |before| < 255 && 0 < M && bytePos < |secret|
    requires forall k :: 0 <= k < |before| ==> Filled(before[k], secret, M, rng, k, bytePos)
    ensures |shares| == |before|
    ensures forall k :: 0 <= k < |shares| ==> Filled(shares[k], secret, M, rng, k, bytePos + 1)
  {
    hide ShareByte, Byte;
    var N := |before|;
    shares := before;
    var coeffs := Coefficients(secret[bytePos], M, rng, bytePos);
    var x := 1;
    while x <= N
      invariant 1 <= x <= N + 1 && |shares| == N
      invariant forall k :: 0 <= k < x - 1 ==> Filled(shares[k], secret, M, rng, k, bytePos + 1)
      invariant forall k :: x - 1 <= k < N ==> Filled(shares[k], secret, M, rng, k, bytePos)
      decreases N + 1 - x
    {
      var y := EvaluateAt(coeffs, Byte(x));
      ShareByteDef(secret, M, rng, bytePos, Byte(x));
      assert Filled(shares[x - 1], secret, M, rng, x - 1, bytePos);
      shares := shares[x - 1 := shares[x - 1].(y := shares[x - 1].y[bytePos := y])];
      x := NextCounter(x);
    }
  }

  /** shamir_split. With N == 255 and valid arguments the source's loops do not terminate (CounterExits). */
  method Split(secret: seq<Elem>, N: nat, M: nat, rng: Rng) returns (r: Result<seq<Share>>)
    requires N <= 255 && M <= 255
    requires N < 255 || |secret| != SECRET_SIZE || M == 0 || M > N
    ensures r == SplitSpec(secret, N, M, rng)
  {
    hide ShareByte, Byte;
    if |secret| != SECRET_SIZE {
      return Err(163);
    }
    if M == 0 || M > N {
      return Err(164);
    }
    var shares: seq<Share> := [];
    var x := 1;
    while x <= N
      invariant 1 <= x <= N + 1 && |shares| == x - 1
      invariant forall k :: 0 <= k < |shares| ==> Filled(shares[k], secret, M, rng, k, 0)
      decreases N + 1 - x
    {
      shares := shares + [Share(Byte(x), Constant(SECRET_SIZE, 0))];
      x := NextCounter(x);
    }
    for bytePos := 0 to SECRET_SIZE
      invariant |shares| == N
      invariant forall k :: 0 <= k < N ==> Filled(shares[k], secret, M, rng, k, bytePos)
    {
      shares := FillPosition(shares, secret, M, rng, bytePos);
    }
    SharesFilled(shares, secret, N, M, rng);
    return Ok(shares);
  }

  lemma SharesFilled(shares: seq<Share>, secret: seq<Elem>, N: nat, M: nat, rng: Rng)
    requires 0 < M && |shares| == N
    requires forall k :: 0 <= k < N ==> Filled(shares[k], secret, M, rng, k, |secret|)
    ensures shares == Shares(secret, N, M, rng)
  {
    hide Eval, ShareByte;
    forall k | 0 <= k < N ensures shares[k] == ShareOf(secret, M, rng, k) {
      assert Filled(shares[k], secret, M, rng, k, |secret|);
      assert shares[k].y == ShareOf(secret, M, rng, k).y;
    }
  }

  /** Which calls of split are refused with which code, and what every share of an accepted one holds. */
  lemma SplitOutcome(secret: seq<Elem>, N: nat, M: nat, rng: Rng)
    requires N <= 255
    ensures var r := SplitSpec(secret, N, M, rng);
      && (r.Ok? <==> |secret| == 32 && 1 <= M <= N)
      && (|secret| != 32 ==> r == Err(163))
      && (|secret| == 32 && !(1 <= M <= N) ==> r == Err(164))
      && (r.Ok? ==> |r.value| == N)
    ensures forall k, p, cs :: |secret| == 32 && 1 <= M <= N && 0 <= k < N && 0 <= p < 32 && IsPolynomial(cs, secret[p], M, rng, p) ==>
      var s := SplitSpec(secret, N, M, rng).value[k];
      ToNat(s.index, 8) == k + 1 && |s.y| == 32 && s.y[p] == Eval(cs, s.index)
  {
    hide Eval, Byte, ToNat;
    forall k, p, cs | |secret| == 32 && 1 <= M <= N && 0 <= k < N && 0 <= p < 32 && IsPolynomial(cs, secret[p], M, rng, p)
      ensures var s := SplitSpec(secret, N, M, rng).value[k];
        ToNat(s.index, 8) == k + 1 && |s.y| == 32 && s.y[p] == Eval(cs, s.index)
    {
      ByteNat(k + 1);
      assert cs == Coefficients(secret[p], M, rng, p);
    }
  }

  /** M coefficients: the secret byte, then the random bytes drawn for position p. */
  ghost predicate IsPolynomial(cs: seq<Elem>, secretByte: Elem, M: nat, rng: Rng, p: nat) {
    |cs| == M && M > 0 && cs[0] == secretByte && forall i :: 1 <= i < M ==> cs[i] == rng(p, i - 1)
  }

  // ---------- recovering

  function Indices(shares: seq<Share>): (xs: seq<Elem>)
    ensures |xs| == |shares|
  {
    seq(|shares|, i requires 0 <= i < |shares| => shares[i].index)
  }

  function Column(shares: seq<Share>, p: nat): (ys: seq<Elem>)
    requires forall s :: s in shares ==> p < |s.y|
    ensures |ys| == |shares|
  {
    seq(|shares|, i requires 0 <= i < |shares| => shares[i].y[p])
  }

  /** The first share that fails its own checks decides the error. */
  function ShareErrors(shares: seq<Share>): Result<()> {
    if shares == [] then Ok(())
    else if |shares[0].y| != SECRET_SIZE then Err(169)
    else if shares[0].index == 0 then Err(170)
    else ShareErrors(shares[1..])
  }

  ghost predicate WellFormed(shares: seq<Share>) {
    forall s :: s in shares ==> |s.y| == SECRET_SIZE && s.index != 0
  }

  lemma {:induction false} NoShareErrors(shares: seq<Share>)
    ensures ShareErrors(shares).Ok? <==> WellFormed(shares)
    decreases |shares|
  {
    if shares != [] {
      assert shares == [shares[0]] + shares[1..];
      NoShareErrors(shares[1..]);
    }
  }

  /** Interpolation at 0 of every byte position over all the given shares. */
  function Interpolated(shares: seq<Share>): (secret: seq<Elem>)
    requires forall s :: s in shares ==> |s.y| == SECRET_SIZE
  {
    seq(SECRET_SIZE, p requires 0 <= p < SECRET_SIZE => AtZero(Indices(shares), Column(shares, p)))
  }

  ghost function RecoverSpec(shares: seq<Share>, M: nat): Result<seq<Elem>> {
    if |shares| < M then Err(166)
    else if M == 0 then Err(167)
    else if |shares| > 255 then Err(168)
    else if ShareErrors(shares).Err? then Err(ShareErrors(shares).code)
    else if !Distinct(Indices(shares)) then Err(171)
    else
      NoShareErrors(shares);
      Ok(Interpolated(shares[..M]))
  }

  method CheckShares(shares: seq<Share>) returns (r: Result<()>)
    ensures r == ShareErrors(shares)
  {
    for i := 0 to |shares|
      invariant ShareErrors(shares) == ShareErrors(shares[i..])
    {
      var s := shares[i];
      assert shares[i..][1..] == shares[i + 1..];
      if |s.y| != SECRET_SIZE {
        return Err(169);
      }
      if s.index == 0 {
        return Err(170);
      }
    }
    return Ok(());
  }

  method HasDuplicateIndex(shares: seq<Share>) returns (found: bool)
    ensures found <==> !Distinct(Indices(shares))
  {
    var xs := Indices(shares);
    for i := 0 to |shares|
      invariant forall a, b :: 0 <= a < i && a < b < |xs| ==> xs[a] != xs[b]
    {
      for j := i + 1 to |shares|
        invariant forall b :: i < b < j ==> xs[i] != xs[b]
      {
        if shares[i].index == shares[j].index {
          assert xs[i] == xs[j];
          return true;
        }
      }
    }
    return false;
  }

  /** The coefficient loop of shamir_recover for share i. */
  method LagrangeCoefficient(shares: seq<Share>, i: nat) returns (coeff: Elem)
    requires i < |shares| && Distinct(Indices(shares))
    ensures coeff == Weight(Indices(shares), shares[i].index)
  {
    hide Mul, Add, Inv;
    var xs := Indices(shares);
    coeff := 1;
    MulOne(Weight(xs, xs[i]));
    for j := 0 to |shares|
      invariant Mul(coeff, Weight(xs[j..], xs[i])) == Weight(xs, xs[i])
    {
      assert xs[j..][1..] == xs[j + 1..];
      if i != j {
        var xj := shares[j].index;
        var diff := Add(xj, shares[i].index);
        var term := GfDiv(xj, diff);
        MulAssoc(coeff, term, Weight(xs[j + 1..], xs[i]));
        coeff := GfMul(coeff, term);
      }
    }
    MulOne(coeff);
  }

  method RecoverByte(shares: seq<Share>, p: nat) returns (secretByte: Elem)
    requires p < SECRET_SIZE && WellFormed(shares) && Distinct(Indices(shares))
    ensures secretByte == AtZero(Indices(shares), Column(shares, p))
  {
    hide Mul, Add, Weight;
    var xs, ys := Indices(shares), Column(shares, p);
    secretByte := 0;
    AddZero(AtZero(xs, ys));
    for i := 0 to |shares|
      invariant Add(secretByte, Combine(xs, xs[i..], ys[i..])) == AtZero(xs, ys)
    {
      assert xs[i..][1..] == xs[i + 1..] && ys[i..][1..] == ys[i + 1..];
      var coeff := LagrangeCoefficient(shares, i);
      var term := GfMul(shares[i].y[p], coeff);
      AddAssoc(secretByte, term, Combine(xs, xs[i + 1..], ys[i + 1..]));
      secretByte := Add(secretByte, term);
    }
    AddZero(secretByte);
  }

  method Recover(shares: seq<Share>, M: nat) returns (r: Result<seq<Elem>>)
    ensures r == RecoverSpec(shares, M)
  {
    hide AtZero, Distinct, Column;
    if |shares| < M {
      return Err(166);
    }
    if M == 0 {
      return Err(167);
    }
    if |shares| > 255 {
      return Err(168);
    }
    var checked := CheckShares(shares);
    if checked.Err? {
      return Err(checked.code);
    }
    var duplicate := HasDuplicateIndex(shares);
    if duplicate {
      return Err(171);
    }
    NoShareErrors(shares);
    var used := shares[..M];
    DistinctPrefix(shares, M);
    var secret: seq<Elem> := [];
    for bytePos := 0 to SECRET_SIZE
      invariant |secret| == bytePos
      invariant forall p :: 0 <= p < bytePos ==> secret[p] == AtZero(Indices(used), Column(used, p))
    {
      var b := RecoverByte(used, bytePos);
      secret := secret + [b];
    }
    assert secret == Interpolated(used);
    return Ok(secret);
  }

  lemma DistinctPrefix(shares: seq<Share>, M: nat)
    requires M <= |shares| && Distinct(Indices(shares))
    ensures Distinct(Indices(shares[..M]))
  {
    var xs, used := Indices(shares), Indices(shares[..M]);
    forall i, j | 0 <= i < j < M ensures used[i] != used[j] {
      assert used[i] == xs[i] && used[j] == xs[j];
    }
  }

  // ---------- what recovery accepts and what it returns

  ghost predicate AllUsable(shares: seq<Share>) {
    forall i :: 0 <= i < |shares| ==> |shares[i].y| == 32 && shares[i].index != 0
  }

  ghost predicate AllDifferent(shares: seq<Share>) {
    forall i, j :: 0 <= i < j < |shares| ==> shares[i].index != shares[j].index
  }

  /** Recovery is accepted exactly on enough usable shares no two of which, used or not, have the same index. */
  lemma RecoverAcceptsIff(shares: seq<Share>, M: nat)
    ensures RecoverSpec(shares, M).Ok? <==>
      1 <= M <= |shares| <= 255 && AllUsable(shares) && AllDifferent(shares)
  {
    NoShareErrors(shares);
    UsableIff(shares);
    assert Distinct(Indices(shares)) <==> AllDifferent(shares) by {
      var xs := Indices(shares);
      assert forall i :: 0 <= i < |shares| ==> xs[i] == shares[i].index;
    }
  }

  lemma UsableIff(shares: seq<Share>)
    ensures WellFormed(shares) <==> AllUsable(shares)
  {
    if WellFormed(shares) {
      forall i | 0 <= i < |shares| ensures |shares[i].y| == 32 && shares[i].index != 0 { assert shares[i] in shares; }
    }
  }

  /** The code of every refusal; among unusable shares the first decides. */
  lemma RecoverCodes(shares: seq<Share>, M: nat)
    ensures |shares| < M ==> RecoverSpec(shares, M) == Err(166)
    ensures M == 0 ==> RecoverSpec(shares, M) == Err(167)
    ensures 1 <= M && M <= |shares| && |shares| > 255 ==> RecoverSpec(shares, M) == Err(168)
    ensures forall i :: 1 <= M <= |shares| <= 255 && 0 <= i < |shares| && AllUsable(shares[..i]) ==>
      && (|shares[i].y| != 32 ==> RecoverSpec(shares, M) == Err(169))
      && (|shares[i].y| == 32 && shares[i].index == 0 ==> RecoverSpec(shares, M) == Err(170))
    ensures 1 <= M <= |shares| <= 255 && AllUsable(shares) && !AllDifferent(shares) ==>
      RecoverSpec(shares, M) == Err(171)
  {
    NoShareErrors(shares);
    UsableIff(shares);
    RecoverAcceptsIff(shares, M);
    forall i | 1 <= M <= |shares| <= 255 && 0 <= i < |shares| && AllUsable(shares[..i])
      ensures |shares[i].y| != 32 ==> RecoverSpec(shares, M) == Err(169)
      ensures |shares[i].y| == 32 && shares[i].index == 0 ==> RecoverSpec(shares, M) == Err(170)
    {
      FirstErrorDecides(shares, i);
    }
  }

  lemma {:induction false} FirstErrorDecides(shares: seq<Share>, i: nat)
    requires i < |shares| && AllUsable(shares[..i])
    ensures |shares[i].y| != 32 ==> ShareErrors(shares) == Err(169)
    ensures |shares[i].y| == 32 && shares[i].index == 0 ==> ShareErrors(shares) == Err(170)
    decreases i
  {
    if i > 0 {
      assert shares[..i][0] == shares[0];
      assert shares[1..][..i - 1] == shares[..i][1..];
      FirstErrorDecides(shares[1..], i - 1);
    }
  }

  /** The result is the constant term, byte by byte, of the polynomial of size M through the first M shares. */
  lemma RecoverMeaning(shares: seq<Share>, M: nat, p: nat, poly: Poly)
    requires RecoverSpec(shares, M).Ok? && p < 32
    requires |poly| == M && forall i :: 0 <= i < M ==> p < |shares[i].y| && Eval(poly, shares[i].index) == shares[i].y[p]
    ensures |RecoverSpec(shares, M).value| == 32 && RecoverSpec(shares, M).value[p] == poly[0]
  {
    hide AtZero, Distinct, Eval;
    NoShareErrors(shares);
    var used := shares[..M];
    DistinctPrefix(shares, M);
    Interpolation(poly, Indices(used), Column(used, p));
    EvalAtZero(poly);
  }

  /** Such a polynomial always exists. */
  lemma RecoverPolynomial(shares: seq<Share>, M: nat, p: nat) returns (poly: Poly)
    requires RecoverSpec(shares, M).Ok? && p < 32
    ensures |poly| == M && forall i :: 0 <= i < M ==> p < |shares[i].y| && Eval(poly, shares[i].index) == shares[i].y[p]
  {
    hide Distinct, Eval;
    NoShareErrors(shares);
    var used := shares[..M];
    DistinctPrefix(shares, M);
    var xs, ys := Indices(used), Column(used, p);
    poly := Interpolant(xs, ys);
    forall i | 0 <= i < M ensures p < |shares[i].y| && Eval(poly, shares[i].index) == shares[i].y[p] {
      InterpolantFits(xs, ys, i);
      assert used[i] == shares[i] && shares[i] in shares;
    }
  }

  // ---------- splitting then recovering

  lemma SharesAt(secret: seq<Elem>, N: nat, M: nat, rng: Rng, s: Share) returns (k: nat)
    requires 0 < M && s in Shares(secret, N, M, rng)
    ensures k < N && s == ShareOf(secret, M, rng, k)
  {
    hide ShareOf;
    var shares := Shares(secret, N, M, rng);
    k :| 0 <= k < |shares| && shares[k] == s;
  }

  lemma ByteNonzero(k: nat)
    requires 0 < k < 256
    ensures Byte(k) != 0
  {
    hide Byte, ToNat;
    ByteNat(k);
    ByteNat(0);
    ZeroNat(8);
  }

  lemma FewIndices(selected: seq<Share>, secret: seq<Elem>, N: nat, M: nat, rng: Rng)
    requires 0 < M && Distinct(Indices(selected))
    requires forall s :: s in selected ==> s in Shares(secret, N, M, rng)
    ensures |selected| <= N
  {
    hide Byte;
    var xs := Indices(selected);
    var ks: seq<nat> := [];
    while |ks| < |selected|
      invariant |ks| <= |selected|
      invariant forall i :: 0 <= i < |ks| ==> ks[i] < N && xs[i] == Byte(ks[i] + 1)
    {
      var k := SharesAt(secret, N, M, rng, selected[|ks|]);
      ks := ks + [k];
    }
    assert NoDuplicates(ks);
    FitsInSet(ks, Below(N));
  }

  ghost function Below(n: nat): (s: set<nat>)
    ensures |s| == n && forall k: int :: k in s <==> 0 <= k < n
  {
    if n == 0 then {} else Below(n - 1) + {n - 1}
  }

  /**
   Any list of at least M distinct shares of a split, in any order, and any threshold from M
   up to the length of the list: recovery returns the secret.
   */
  lemma SplitThenRecover(secret: seq<Elem>, N: nat, M: nat, rng: Rng, selected: seq<Share>, threshold: nat)
    requires |secret| == SECRET_SIZE && 1 <= M <= N < 255
    requires M <= threshold <= |selected|
    requires forall s :: s in selected ==> s in Shares(secret, N, M, rng)
    requires Distinct(Indices(selected))
    ensures RecoverSpec(selected, threshold) == Ok(secret)
  {
    hide Byte, AtZero, Distinct, ShareByte;
    FewIndices(selected, secret, N, M, rng);
    forall s | s in selected
      ensures |s.y| == SECRET_SIZE && s.index != 0
      ensures forall p :: 0 <= p < SECRET_SIZE ==> s.y[p] == ShareByte(secret, M, rng, p, s.index)
    {
      var k := SharesAt(secret, N, M, rng, s);
      ByteNonzero(k + 1);
    }
    NoShareErrors(selected);
    var used := selected[..threshold];
    DistinctPrefix(selected, threshold);
    forall p | 0 <= p < SECRET_SIZE
      ensures Interpolated(used)[p] == secret[p]
    {
      RecoverPosition(secret, M, rng, used, p);
    }
    assert Interpolated(used) == secret;
  }

  lemma RecoverPosition(secret: seq<Elem>, M: nat, rng: Rng, used: seq<Share>, p: nat)
    requires |secret| == SECRET_SIZE && p < SECRET_SIZE && 1 <= M <= |used|
    requires forall s :: s in used ==> |s.y| == SECRET_SIZE && s.y[p] == ShareByte(secret, M, rng, p, s.index)
    requires Distinct(Indices(used))
    ensures AtZero(Indices(used), Column(used, p)) == secret[p]
  {
    hide AtZero, Distinct, Eval;
    var poly := Coefficients(secret[p], M, rng, p);
    Interpolation(poly, Indices(used), Column(used, p));
    EvalAtZero(poly);
  }

  // ---------- fewer than M shares say nothing about the secret

  ghost predicate Fits(secretByte: Elem, cs: seq<Elem>, xs: seq<Elem>, ys: seq<Elem>)
    requires |xs| == |ys|
  {
    forall i :: 0 <= i < |xs| ==> Eval([secretByte] + cs, xs[i]) == ys[i]
  }

  lemma PrependZero(xs: seq<Elem>)
    requires Distinct(xs) && 0 !in xs
    ensures Distinct([0] + xs)
  {
    var zs := [0] + xs;
    forall i, j | 0 <= i < j < |zs| ensures zs[i] != zs[j] {
      assert zs[j] == xs[j - 1];
      if i > 0 { assert zs[i] == xs[i - 1]; }
    }
  }

  /** The random coefficients that explain the shares (xs, ys) for a candidate secret byte. */
  ghost function Explanation(secretByte: Elem, xs: seq<Elem>, ys: seq<Elem>): (cs: seq<Elem>)
    requires |xs| == |ys|
    ensures |cs| == |xs|
  {
    Interpolant([0] + xs, [secretByte] + ys)[1..]
  }

  /**
   For any M - 1 distinct nonzero indices and any values at them, each candidate secret byte is
   explained by exactly one choice of the M - 1 random coefficients.
   */
  lemma ExactlyOneExplanation(secretByte: Elem, xs: seq<Elem>, ys: seq<Elem>)
    requires |xs| == |ys| && Distinct(xs) && 0 !in xs
    ensures Fits(secretByte, Explanation(secretByte, xs, ys), xs, ys)
    ensures forall cs :: |cs| == |xs| && Fits(secretByte, cs, xs, ys) ==> cs == Explanation(secretByte, xs, ys)
  {
    hide Eval, Interpolant, Distinct;
    var nodes, values := [0] + xs, [secretByte] + ys;
    var p := Interpolant(nodes, values);
    PrependZero(xs);
    forall i | 0 <= i < |nodes| ensures Eval(p, nodes[i]) == values[i] { InterpolantFits(nodes, values, i); }
    EvalAtZero(p);
    assert Eval(p, nodes[0]) == values[0];
    assert p == [secretByte] + p[1..];
    forall i | 0 <= i < |xs| ensures Eval(p, xs[i]) == ys[i] { assert Eval(p, nodes[i + 1]) == values[i + 1]; }
    forall cs | |cs| == |xs| && Fits(secretByte, cs, xs, ys)
      ensures cs == p[1..]
    {
      var q := [secretByte] + cs;
      EvalAtZero(q);
      forall i | 0 <= i < |nodes| ensures Eval(q, nodes[i]) == Eval(p, nodes[i]) {
        if i > 0 { assert nodes[i] == xs[i - 1]; }
      }
      UniqueInterpolation(q, p, nodes);
      assert cs == q[1..];
    }
  }

  ghost function IndexBytes(known: seq<nat>): (xs: seq<Elem>)
    ensures |xs| == |known|
  {
    seq(|known|, i requires 0 <= i < |known| => Byte(known[i] + 1))
  }

  lemma IndexBytesDistinct(known: seq<nat>, N: nat)
    requires N < 255 && NoDuplicates(known) && forall j :: 0 <= j < |known| ==> known[j] < N
    ensures Distinct(IndexBytes(known)) && 0 !in IndexBytes(known)
  {
    hide Byte, ToNat;
    var xs := IndexBytes(known);
    forall i, j | 0 <= i < j < |xs| ensures xs[i] != xs[j] {
      ByteNat(known[i] + 1);
      ByteNat(known[j] + 1);
    }
    forall i | 0 <= i < |xs| ensures xs[i] != 0 { ByteNonzero(known[i] + 1); }
  }

  ghost function KnownBytes(secret: seq<Elem>, M: nat, rng: Rng, p: nat, xs: seq<Elem>): (ys: seq<Elem>)
    requires 0 < M && p < |secret|
    ensures |ys| == |xs|
  {
    seq(|xs|, i requires 0 <= i < |xs| => ShareByte(secret, M, rng, p, xs[i]))
  }

  /** Random coefficients under which `other` yields the known shares of `secret`. */
  ghost function Reexplain(secret: seq<Elem>, other: seq<Elem>, M: nat, rng: Rng, known: seq<nat>): Rng
    requires |secret| == |other| && 0 < M
  {
    var xs := IndexBytes(known);
    (p: nat, i: nat) =>
      if p < |secret| && i < |xs| then Explanation(other[p], xs, KnownBytes(secret, M, rng, p, xs))[i] else 0
  }

  lemma SameByte(secret: seq<Elem>, other: seq<Elem>, M: nat, rng: Rng, known: seq<nat>, p: nat, i: nat)
    requires |secret| == |other| && p < |other| && i < |known| == M - 1
    requires Distinct(IndexBytes(known)) && 0 !in IndexBytes(known)
    ensures var x := IndexBytes(known)[i];
            ShareByte(other, M, Reexplain(secret, other, M, rng, known), p, x) == ShareByte(secret, M, rng, p, x)
  {
    hide Eval, Explanation, Distinct, Byte;
    var rng', xs := Reexplain(secret, other, M, rng, known), IndexBytes(known);
    var ys := KnownBytes(secret, M, rng, p, xs);
    ExactlyOneExplanation(other[p], xs, ys);
    assert Coefficients(other[p], M, rng', p) == [other[p]] + Explanation(other[p], xs, ys);
    assert Eval(Coefficients(other[p], M, rng', p), xs[i]) == ys[i];
  }

  /**
   Perfect secrecy of a split: whatever M - 1 of its shares are known, every other secret has
   random coefficients that produce those very shares.
   */
  lemma SharesHideSecret(secret: seq<Elem>, other: seq<Elem>, N: nat, M: nat, rng: Rng, known: seq<nat>, i: nat)
    requires |secret| == |other| && 1 <= M <= N < 255
    requires i < |known| == M - 1 && NoDuplicates(known) && forall j :: 0 <= j < |known| ==> known[j] < N
    ensures Shares(other, N, M, Reexplain(secret, other, M, rng, known))[known[i]]
         == Shares(secret, N, M, rng)[known[i]]
  {
    hide Byte, ShareByte, Distinct, Reexplain;
    var rng' := Reexplain(secret, other, M, rng, known);
    IndexBytesDistinct(known, N);
    var k := known[i];
    var x := Byte(k + 1);
    forall p | 0 <= p < |secret|
      ensures ShareByte(other, M, rng', p, x) == ShareByte(secret, M, rng, p, x)
    {
      SameByte(secret, other, M, rng, known, p, i);
    }
    assert ShareOf(other, M, rng', k).y == ShareOf(secret, M, rng, k).y;
  }

  // ---------- a changed share changes the result

  lemma {:induction false} WeightNonzero(nodes: seq<Elem>, x: Elem)
    requires 0 !in nodes
    ensures Weight(nodes, x) != 0
    decreases |nodes|
  {
    hide Add, Mul, Inv;
    if nodes != [] {
      WeightNonzero(nodes[1..], x);
      if nodes[0] != x {
        var d := Add(nodes[0], x);
        AddCancel(nodes[0], x);
        InvLaw(d);
        MulZero(d);
        NoZeroDivisors(nodes[0], Inv(d));
        NoZeroDivisors(Div(nodes[0], d), Weight(nodes[1..], x));
      }
    }
  }

  lemma {:induction false} CombineSensitive(nodes: seq<Elem>, xs: seq<Elem>, ys: seq<Elem>, i: nat, y: Elem)
    requires |xs| == |ys| && i < |xs| && y != ys[i] && Weight(nodes, xs[i]) != 0
    ensures Combine(nodes, xs, ys[i := y]) != Combine(nodes, xs, ys)
    decreases |xs|
  {
    hide Add, Mul, Weight;
    var w, rest := Weight(nodes, xs[0]), Combine(nodes, xs[1..], ys[1..]);
    var ys' := ys[i := y];
    if i == 0 {
      assert ys'[1..] == ys[1..];
      AddComm(Mul(y, w), rest);
      AddComm(Mul(ys[0], w), rest);
      AddInj(rest, Mul(y, w), Mul(ys[0], w));
      MulComm(y, w);
      MulComm(ys[0], w);
      if Mul(w, y) == Mul(w, ys[0]) { Cancel(w, y, ys[0]); }
    } else {
      assert ys'[1..] == ys[1..][i - 1 := y];
      CombineSensitive(nodes, xs[1..], ys[1..], i - 1, y);
      AddInj(Mul(ys[0], w), Combine(nodes, xs[1..], ys'[1..]), rest);
    }
  }

  /** Changing one byte of one share that recovery uses always changes that byte of the result. */
  lemma TamperingChangesSecret(shares: seq<Share>, M: nat, i: nat, p: nat, y: Elem)
    requires RecoverSpec(shares, M).Ok? && i < M && p < SECRET_SIZE
    requires p < |shares[i].y| && y != shares[i].y[p]
    ensures var tampered := shares[i := shares[i].(y := shares[i].y[p := y])];
            var r := RecoverSpec(tampered, M);
            r.Ok? && r.value[p] != RecoverSpec(shares, M).value[p]
  {
    hide AtZero, Distinct;
    NoShareErrors(shares);
    var tampered := shares[i := shares[i].(y := shares[i].y[p := y])];
    forall s | s in tampered ensures |s.y| == SECRET_SIZE && s.index != 0 {
      var k :| 0 <= k < |tampered| && tampered[k] == s;
      assert shares[k] in shares;
    }
    NoShareErrors(tampered);
    assert Indices(tampered) == Indices(shares);
    var used, used' := shares[..M], tampered[..M];
    assert Indices(used') == Indices(used);
    assert Column(used', p) == Column(used, p)[i := y];
    SensitiveAtZero(Indices(used), Column(used, p), i, y);
  }

  lemma SensitiveAtZero(xs: seq<Elem>, ys: seq<Elem>, i: nat, y: Elem)
    requires |xs| == |ys| && i < |xs| && y != ys[i] && 0 !in xs
    ensures AtZero(xs, ys[i := y]) != AtZero(xs, ys)
  {
    hide Combine, Weight;
    WeightNonzero(xs, xs[i]);
    CombineSensitive(xs, xs, ys, i, y);
  }
}
