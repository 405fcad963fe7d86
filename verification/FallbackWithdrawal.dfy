/** Planning a liquid unstake: from the reserve, or from a validator when the reserve falls short. */
module FallbackWithdrawal {
  import opened Wrappers
  import opened StableSort
  import opened StakingChain

  datatype UnstakeError = AmountTooSmall | NoActiveStake

  predicate Active(v: Validator) { v.status == 0 && v.activeStakeLamports > 0 }

  function MoreStake(): (Validator, Validator) -> bool {
    (left: Validator, right: Validator) => left.activeStakeLamports > right.activeStakeLamports
  }

  function FindCovering(vs: seq<Validator>, required: nat): Option<Validator> {
    if vs == [] then None
    else if vs[0].activeStakeLamports >= required then Some(vs[0])
    else FindCovering(vs[1..], required)
  }

  /** Keep the active validators, largest stake first, and take the first that covers the burn, or else the first. */
  function SelectFallbackValidator(poolTokensToBurn: nat, totalLamports: nat, poolTokenSupply: nat, validators: seq<Validator>)
    : Result<Validator, UnstakeError>
  {
    var active := Sort(Filter(validators, Active), MoreStake());
    if active == [] then Failure(NoActiveStake) else
      match FindCovering(active, RequiredLamports(poolTokensToBurn, totalLamports, poolTokenSupply))
      case Some(v) => Success(v)
      case None => Success(active[0])
  }

  /** The k-th kept element and where it stood: every kept element before that place is kept before it. */
  lemma {:induction false} PlaceOfKept<T>(xs: seq<T>, keep: T -> bool, k: nat) returns (place: nat)
    requires k < |Filter(xs, keep)|
    ensures place < |xs| && keep(xs[place]) && xs[place] == Filter(xs, keep)[k]
    ensures forall j :: 0 <= j < place && keep(xs[j]) ==> xs[j] in Filter(xs, keep)[..k]
  {
    var rest := Filter(xs[1..], keep);
    if keep(xs[0]) {
      assert Filter(xs, keep) == [xs[0]] + rest;
      if k == 0 {
        place := 0;
      } else {
        var p := PlaceOfKept(xs[1..], keep, k - 1);
        place := p + 1;
        forall j | 0 <= j < place && keep(xs[j])
          ensures xs[j] in Filter(xs, keep)[..k]
        {
          if j == 0 {
            assert Filter(xs, keep)[..k][0] == xs[0];
          } else {
            assert xs[1..][j - 1] == xs[j];
            assert Filter(xs, keep)[..k] == [xs[0]] + rest[..k - 1];
          }
        }
      }
    } else {
      var p := PlaceOfKept(xs[1..], keep, k);
      place := p + 1;
      forall j | 0 <= j < place && keep(xs[j])
        ensures xs[j] in Filter(xs, keep)[..k]
      {
        assert j > 0 && xs[1..][j - 1] == xs[j];
        assert Filter(xs, keep) == rest;
      }
    }
  }

  ghost predicate FirstLargestActive(validators: seq<Validator>, k: nat) {
    && k < |validators| && Active(validators[k])
    && (forall j :: 0 <= j < |validators| && Active(validators[j]) ==>
          validators[j].activeStakeLamports <= validators[k].activeStakeLamports)
    && (forall j :: 0 <= j < k && Active(validators[j]) ==>
          validators[j].activeStakeLamports < validators[k].activeStakeLamports)
  }

  lemma KeptExactly(validators: seq<Validator>)
    ensures forall v :: v in Filter(validators, Active) <==> v in validators && Active(v)
  {
    forall v
      ensures v in Filter(validators, Active) <==> v in validators && Active(v)
    {
      FilterMember(validators, Active, v);
    }
  }

  lemma HeadIsFirstLargest(validators: seq<Validator>) returns (k: nat)
    requires Filter(validators, Active) != []
    ensures FirstLargestActive(validators, k)
    ensures Sort(Filter(validators, Active), MoreStake())[0] == validators[k]
  {
    var kept := Filter(validators, Active);
    KeptExactly(validators);
    var h := SortHead(kept, MoreStake());
    k := PlaceOfKept(validators, Active, h);
    hide Filter, Sort;
    forall j | 0 <= j < |validators| && Active(validators[j])
      ensures validators[j].activeStakeLamports <= validators[k].activeStakeLamports
    {
      assert validators[j] in kept;
      var i :| 0 <= i < |kept| && kept[i] == validators[j];
      assert !MoreStake()(kept[i], kept[h]);
    }
    forall j | 0 <= j < k && Active(validators[j])
      ensures validators[j].activeStakeLamports < validators[k].activeStakeLamports
    {
      var i :| 0 <= i < h && kept[..h][i] == validators[j];
      assert MoreStake()(kept[h], kept[i]);
    }
  }

  /**
   * The choice is always the first active validator of maximal stake, whatever is required, and it
   * fails only when none is active. So it covers the requirement whenever any active one does.
   */
  lemma SelectsFirstLargest(poolTokensToBurn: nat, totalLamports: nat, poolTokenSupply: nat, validators: seq<Validator>)
    returns (k: nat)
    ensures var r := SelectFallbackValidator(poolTokensToBurn, totalLamports, poolTokenSupply, validators);
            && (r.Failure? <==> forall v :: v in validators ==> !Active(v))
            && (r.Success? ==>
                  && FirstLargestActive(validators, k) && r.value == validators[k]
                  && var required := RequiredLamports(poolTokensToBurn, totalLamports, poolTokenSupply);
                     (r.value.activeStakeLamports >= required <==>
                      exists v :: v in validators && Active(v) && v.activeStakeLamports >= required))
    ensures var r := SelectFallbackValidator(poolTokensToBurn, totalLamports, poolTokenSupply, validators);
            && (r.Failure? ==> forall v :: v in validators ==> v.status != 0 || v.activeStakeLamports == 0)
            && (r.Success? ==>
                  && r.value.status == 0 && r.value.activeStakeLamports > 0
                  && forall v :: v in validators && v.status == 0 ==> v.activeStakeLamports <= r.value.activeStakeLamports)
  {
    hide RequiredLamports, Filter, Sort, FindCovering;
    k := 0;
    var kept := Filter(validators, Active);
    KeptExactly(validators);
    if kept == [] {
      assert forall v :: v in validators && Active(v) ==> v in kept;
    } else {
      assert kept[0] in kept;
      SortSorted(kept, MoreStake());
      HeadCoversFirst(Sort(kept, MoreStake()), RequiredLamports(poolTokensToBurn, totalLamports, poolTokenSupply));
      k := HeadIsFirstLargest(validators);
    }
  }

  /** In a list by falling stake, the first that covers can only be the head. */
  lemma {:induction false} HeadCoversFirst(active: seq<Validator>, required: nat)
    requires Sorted(active, MoreStake()) && active != []
    ensures FindCovering(active, required) == if active[0].activeStakeLamports >= required then Some(active[0]) else None
  {
    if active[0].activeStakeLamports < required && |active| > 1 {
      assert !MoreStake()(active[1], active[0]);
      assert Sorted(active[1..], MoreStake()) by {
        forall i, j | 0 <= i < j < |active[1..]|
          ensures !MoreStake()(active[1..][j], active[1..][i])
        {
          assert !MoreStake()(active[j + 1], active[i + 1]);
        }
      }
      HeadCoversFirst(active[1..], required);
    }
  }

  // ---- The unstake branch ----

  datatype Plan = FromReserve(poolTokens: nat) | FromValidator(poolTokens: nat, validator: Validator)

  function PlanUnstake(amountLamports: nat, totalLamports: nat, poolTokenSupply: nat,
                       reserveLamports: nat, rentExemptLamports: nat, validators: seq<Validator>): Result<Plan, UnstakeError>
  {
    var poolTokens := LamportsToPoolTokens(amountLamports, totalLamports, poolTokenSupply);
    if poolTokens == 0 then Failure(AmountTooSmall) else
      var available := reserveLamports - rentExemptLamports;
      if amountLamports > available && available >= 0 then
        match SelectFallbackValidator(poolTokens, totalLamports, poolTokenSupply, validators)
        case Success(v) => Success(FromValidator(poolTokens, v))
        case Failure(e) => Failure(e)
      else Success(FromReserve(poolTokens))
  }

  /**
   * A plan that draws on the reserve is one the reserve can pay exactly when the reserve is not
   * below its rent. A plan that draws on a validator asks it for no more than was requested, and
   * the validator can pay whenever any active one can.
   */
  lemma PlanIsPayable(amountLamports: nat, totalLamports: nat, poolTokenSupply: nat,
                      reserveLamports: nat, rentExemptLamports: nat, validators: seq<Validator>)
    ensures var available := reserveLamports - rentExemptLamports;
            match PlanUnstake(amountLamports, totalLamports, poolTokenSupply, reserveLamports, rentExemptLamports, validators)
            case Success(FromReserve(poolTokens)) =>
              && (amountLamports <= available <==> available >= 0)
              && poolTokens * totalLamports <= amountLamports * poolTokenSupply < (poolTokens + 1) * totalLamports
            case Success(FromValidator(poolTokens, v)) =>
              && 0 <= available < amountLamports
              && var required := RequiredLamports(poolTokens, totalLamports, poolTokenSupply);
              && required <= amountLamports
              && (amountLamports - required) * poolTokenSupply < totalLamports
              && poolTokens * totalLamports <= amountLamports * poolTokenSupply < (poolTokens + 1) * totalLamports
              && (exists k: nat :: FirstLargestActive(validators, k) && v == validators[k])
              && ((exists w :: w in validators && Active(w) && w.activeStakeLamports >= required) ==> v.activeStakeLamports >= required)
            case Failure(_) => true
    ensures var plan := PlanUnstake(amountLamports, totalLamports, poolTokenSupply, reserveLamports, rentExemptLamports, validators);
            var tooSmall := totalLamports == 0 || amountLamports * poolTokenSupply < totalLamports;
            && (plan == Failure(AmountTooSmall) <==> tooSmall)
            && (plan == Failure(NoActiveStake) <==>
                && !tooSmall && 0 <= reserveLamports - rentExemptLamports < amountLamports
                && forall v :: v in validators ==> !Active(v))
  {
    var poolTokens := LamportsToPoolTokens(amountLamports, totalLamports, poolTokenSupply);
    if totalLamports > 0 && poolTokenSupply > 0 {
      RequiredWithinOneToken(amountLamports, totalLamports, poolTokenSupply);
      RequiredIsLeast(amountLamports, 1, totalLamports, poolTokenSupply);
      FloorIs(amountLamports, poolTokenSupply, totalLamports);
      assert amountLamports * poolTokenSupply >= 0;
      QuotientBelowOne(amountLamports * poolTokenSupply, totalLamports);
    } else {
      NothingBought(amountLamports, totalLamports, poolTokenSupply);
    }
    hide LamportsToPoolTokens, RequiredLamports, SelectFallbackValidator;
    var _ := SelectsFirstLargest(poolTokens, totalLamports, poolTokenSupply, validators);
  }

  lemma QuotientBelowOne(n: nat, b: nat)
    requires b > 0
    ensures n / b == 0 <==> n < b
  {
  }

  lemma NothingBought(lamports: nat, totalLamports: nat, poolTokenSupply: nat)
    requires totalLamports == 0 || poolTokenSupply == 0
    ensures LamportsToPoolTokens(lamports, totalLamports, poolTokenSupply) == 0
  {
  }

  /**
   * The guard skips the fallback when the reserve exists but is below its rent: the plan then draws
   * on a reserve that cannot pay, even where the fallback would have found a validator that can.
   */
  lemma ReserveBelowRentIsNotRescued(amountLamports: nat, totalLamports: nat, poolTokenSupply: nat,
                                     reserveLamports: nat, rentExemptLamports: nat, validators: seq<Validator>, v: Validator)
    requires 0 < reserveLamports < rentExemptLamports
    requires totalLamports > 0 && totalLamports <= amountLamports * poolTokenSupply
    requires var poolTokens := LamportsToPoolTokens(amountLamports, totalLamports, poolTokenSupply);
             v in validators && Active(v) && RequiredLamports(poolTokens, totalLamports, poolTokenSupply) <= v.activeStakeLamports
    ensures var poolTokens := LamportsToPoolTokens(amountLamports, totalLamports, poolTokenSupply);
            var required := RequiredLamports(poolTokens, totalLamports, poolTokenSupply);
            var fallback := SelectFallbackValidator(poolTokens, totalLamports, poolTokenSupply, validators);
            && PlanUnstake(amountLamports, totalLamports, poolTokenSupply, reserveLamports, rentExemptLamports, validators) ==
               Success(FromReserve(poolTokens))
            && amountLamports > reserveLamports - rentExemptLamports
            && fallback.Success? && fallback.value.activeStakeLamports >= required
  {
    var poolTokens := LamportsToPoolTokens(amountLamports, totalLamports, poolTokenSupply);
    FloorIs(amountLamports, poolTokenSupply, totalLamports);
    QuotientBelowOne(amountLamports * poolTokenSupply, totalLamports);
    hide LamportsToPoolTokens, RequiredLamports, SelectFallbackValidator;
    var _ := SelectsFirstLargest(poolTokens, totalLamports, poolTokenSupply, validators);
  }
}
