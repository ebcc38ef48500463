/**
 Keeping postage batches alive and large enough (pkg/stamper/node.go): `Set` tops batches up and
 dilutes them. The requests it sends are compared with a pure plan per batch, and the plans with
 what they do to the batches.
 */
module Stamper {
  import opened Wrappers
  import opened Powers
  import opened Arithmetic
  import Int64

  const SECOND := 1_000_000_000

  datatype Batch = Batch(id: string, postageLabel: string, usable: bool, utilization: nat, depth: nat,
                         bucketDepth: nat, ttl: int)

  // Durations are in nanoseconds, `secondsPerBlock` in seconds.
  datatype Policy = Policy(ttlThreshold: int, topUpFinalTTL: int, utilizationThreshold: real, extraDepth: nat,
                           secondsPerBlock: int, batchIDs: seq<string>, labels: seq<string>)

  datatype Request = TopUp(id: string, amount: int) | Dilute(id: string, depth: nat)

  // Shift amounts stay below the word size.
  predicate SaneBatch(b: Batch) {
    b.bucketDepth <= b.depth <= b.bucketDepth + 62
  }

  predicate SanePolicy(p: Policy) {
    p.secondsPerBlock >= 1 && p.extraDepth <= 62
  }

  function Percent(part: nat, whole: nat): real
    requires whole > 0
  {
    part as real / whole as real * 100.0
  }

  function Usage(b: Batch): real
    requires SaneBatch(b)
  {
    Percent(b.utilization, Pow2(b.depth - b.bucketDepth))
  }

  predicate IsValid(b: Batch, p: Policy) {
    && b.usable && b.utilization != 0 && b.ttl > 0
    && (|p.batchIDs| > 0 ==> b.id in p.batchIDs)
    && (|p.labels| > 0 ==> b.postageLabel in p.labels)
  }

  //// The plan for one batch

  predicate NeedsDilution(b: Batch, p: Policy)
    requires SaneBatch(b)
  {
    Usage(b) >= p.utilizationThreshold
  }

  // The remaining time the decision is based on: after dilution if the batch is to be diluted.
  function DecisionTTL(b: Batch, p: Policy): int
    requires SaneBatch(b)
  {
    var ttl := Int64.Wrap(b.ttl * SECOND);
    if NeedsDilution(b, p) then Int64.Quot(ttl, Pow2(p.extraDepth)) else ttl
  }

  function TopUpPlan(b: Batch, p: Policy, ttl: int, price: int): seq<Request>
    requires SanePolicy(p)
  {
    var missing := Int64.Wrap(p.topUpFinalTTL - ttl);
    if ttl <= p.ttlThreshold && missing > 0
    then [TopUp(b.id, Int64.Wrap(missing / SECOND / p.secondsPerBlock * price))]
    else []
  }

  // A top-up is due for a batch with this much time left.
  predicate Due(left: int, p: Policy) {
    left <= p.ttlThreshold && left < p.topUpFinalTTL
  }

  function Plan(b: Batch, p: Policy, price: int): seq<Request>
    requires SaneBatch(b) && SanePolicy(p)
  {
    if !IsValid(b, p) then []
    else TopUpPlan(b, p, DecisionTTL(b, p), price)
         + (if NeedsDilution(b, p) then [Dilute(b.id, b.depth + p.extraDepth)] else [])
  }

  function Concat(plans: seq<seq<Request>>): seq<Request> {
    if plans == [] then [] else Concat(plans[..|plans| - 1]) + plans[|plans| - 1]
  }

  // The plans of all batches, in list order.
  function Plans(bs: seq<Batch>, p: Policy, price: int): seq<seq<Request>>
    requires SanePolicy(p) && forall i :: 0 <= i < |bs| ==> SaneBatch(bs[i])
  {
    seq(|bs|, i requires 0 <= i < |bs| => Plan(bs[i], p, price))
  }

  function FullPlan(bs: seq<Batch>, p: Policy, price: int): seq<Request>
    requires SanePolicy(p) && forall i :: 0 <= i < |bs| ==> SaneBatch(bs[i])
  {
    Concat(Plans(bs, p, price))
  }

  lemma {:induction false} ConcatPrefix(plans: seq<seq<Request>>, i: nat)
    requires i <= |plans|
    ensures Concat(plans[..i]) <= Concat(plans)
    decreases |plans|
  {
    if i == |plans| {
      assert plans[..i] == plans;
    } else {
      var front := plans[..|plans| - 1];
      assert front[..i] == plans[..i];
      ConcatPrefix(front, i);
    }
  }

  lemma {:induction false} ConcatJoin(plans: seq<seq<Request>>, more: seq<seq<Request>>)
    ensures Concat(plans + more) == Concat(plans) + Concat(more)
    decreases |more|
  {
    if more == [] {
      assert plans + more == plans;
    } else {
      var front := more[..|more| - 1];
      ConcatJoin(plans, front);
      var all := plans + more;
      assert all[..|all| - 1] == plans + front && all[|all| - 1] == more[|more| - 1];
    }
  }

  // Every batch of the list is planned for, in list order.
  lemma PlanOfOne(b: Batch, p: Policy, price: int)
    requires SaneBatch(b) && SanePolicy(p)
    ensures FullPlan([b], p, price) == Plan(b, p, price)
  {
    assert Plans([b], p, price) == [Plan(b, p, price)];
    assert Concat([]) == [];
  }

  lemma PlanOfJoined(bs: seq<Batch>, cs: seq<Batch>, p: Policy, price: int)
    requires SanePolicy(p)
    requires (forall i :: 0 <= i < |bs| ==> SaneBatch(bs[i])) && (forall i :: 0 <= i < |cs| ==> SaneBatch(cs[i]))
    ensures FullPlan(bs + cs, p, price) == FullPlan(bs, p, price) + FullPlan(cs, p, price)
  {
    assert Plans(bs + cs, p, price) == Plans(bs, p, price) + Plans(cs, p, price);
    ConcatJoin(Plans(bs, p, price), Plans(cs, p, price));
  }

  // A batch the program may touch.
  ghost predicate Eligible(b: Batch, p: Policy) {
    && b.usable && b.utilization > 0 && b.ttl > 0
    && (p.batchIDs == [] || exists i :: 0 <= i < |p.batchIDs| && p.batchIDs[i] == b.id)
    && (p.labels == [] || exists i :: 0 <= i < |p.labels| && p.labels[i] == b.postageLabel)
  }

  // Only eligible batches get requests, all of them under their own id; an eligible batch is diluted
  // exactly when its usage reaches the threshold.
  lemma ServedBatches(b: Batch, p: Policy, price: int)
    requires SaneBatch(b) && SanePolicy(p)
    ensures var plan := Plan(b, p, price);
            && (plan != [] ==> Eligible(b, p))
            && (forall i :: 0 <= i < |plan| ==> plan[i].id == b.id)
            && (Dilute(b.id, b.depth + p.extraDepth) in plan <==> Eligible(b, p) && Usage(b) >= p.utilizationThreshold)
            && (forall i :: 0 <= i < |plan| && plan[i].Dilute? ==> plan[i].depth == b.depth + p.extraDepth)
    ensures Eligible(b, p) ==>
              TopUpPlan(b, p, DecisionTTL(b, p), price) <= Plan(b, p, price)
  {
    var plan := Plan(b, p, price);
    var dilution := Dilute(b.id, b.depth + p.extraDepth);
    if IsValid(b, p) && NeedsDilution(b, p) {
      assert plan[|plan| - 1] == dilution;
    }
  }

  // The usage is the filling of the fullest bucket in percent.
  lemma UsageMeaning(b: Batch)
    requires SaneBatch(b)
    ensures Usage(b) * Pow2(b.depth - b.bucketDepth) as real == 100.0 * b.utilization as real
  {
    var c := Pow2(b.depth - b.bucketDepth) as real;
    assert b.utilization as real / c * c == b.utilization as real;
  }

  //// The program against an API whose k-th request succeeds when ok(k)

  // `sent` is the part of the plan up to and including its first failing request, the plan's first
  // request being number `base`.
  ghost predicate CutAtFirstFailure(plan: seq<Request>, ok: nat -> bool, base: nat, sent: seq<Request>) {
    && sent <= plan
    && (forall k: nat :: base <= k < base + |sent| - 1 ==> ok(k))
    && (|sent| < |plan| ==> sent != [] && !ok(base + |sent| - 1))
  }

  ghost predicate AllSucceed(plan: seq<Request>, ok: nat -> bool, base: nat) {
    forall k: nat :: base <= k < base + |plan| ==> ok(k)
  }

  predicate AnyTopUp(plan: seq<Request>) {
    exists i :: 0 <= i < |plan| && plan[i].TopUp?
  }

  predicate AnyDilute(plan: seq<Request>) {
    exists i :: 0 <= i < |plan| && plan[i].Dilute?
  }

  lemma AnyOfJoined(a: seq<Request>, b: seq<Request>)
    ensures AnyTopUp(a + b) <==> AnyTopUp(a) || AnyTopUp(b)
    ensures AnyDilute(a + b) <==> AnyDilute(a) || AnyDilute(b)
  {
    var all := a + b;
    if i :| 0 <= i < |a| && a[i].TopUp? {
      assert all[i].TopUp?;
    }
    if i :| 0 <= i < |a| && a[i].Dilute? {
      assert all[i].Dilute?;
    }
    if i :| 0 <= i < |b| && b[i].TopUp? {
      assert all[|a| + i].TopUp?;
    }
    if i :| 0 <= i < |b| && b[i].Dilute? {
      assert all[|a| + i].Dilute?;
    }
  }

  method HandleTopup(b: Batch, p: Policy, ttl: int, price: int, ok: nat -> bool, base: nat)
    returns (failed: bool, topped: bool, done: seq<Request>)
    requires SanePolicy(p)
    ensures done == TopUpPlan(b, p, ttl, price)
    ensures |done| <= 1 && (done != [] ==> done[0].TopUp?)
    ensures failed == (done != [] && !ok(base))
    ensures topped == (done != [] && ok(base))
  {
    if ttl <= p.ttlThreshold {
      var missing := Int64.Wrap(p.topUpFinalTTL - ttl);
      if missing > 0 {
        var amount := Int64.Wrap(missing / SECOND / p.secondsPerBlock * price);
        return !ok(base), ok(base), [TopUp(b.id, amount)];
      }
    }
    return false, false, [];
  }

  method HandleDilution(b: Batch, p: Policy, ok: nat -> bool, base: nat)
    returns (failed: bool, diluted: bool, done: seq<Request>)
    ensures done == [Dilute(b.id, b.depth + p.extraDepth)]
    ensures failed == !ok(base) && diluted == ok(base)
  {
    return !ok(base), ok(base), [Dilute(b.id, b.depth + p.extraDepth)];
  }

  // The loop body: one batch. `done` is what it sends.
  method SetBatch(b: Batch, p: Policy, price: int, ok: nat -> bool, base: nat)
    returns (failed: bool, topped: bool, diluted: bool, done: seq<Request>)
    requires SaneBatch(b) && SanePolicy(p)
    ensures CutAtFirstFailure(Plan(b, p, price), ok, base, done)
    ensures failed <==> done != [] && !ok(base + |done| - 1)
    ensures !failed ==> done == Plan(b, p, price) && AllSucceed(done, ok, base)
    ensures !failed ==> topped == AnyTopUp(done) && diluted == AnyDilute(done)
  {
    failed, topped, diluted, done := false, false, false, [];
    if !IsValid(b, p) {
      return;
    }
    var needsDilution := NeedsDilution(b, p);
    var ttl := Int64.Wrap(b.ttl * SECOND);
    if needsDilution {
      ttl := Int64.Quot(ttl, Pow2(p.extraDepth));
    }
    if ttl > p.ttlThreshold && !needsDilution {
      return;
    }
    failed, topped, diluted, done := SendBoth(b, p, ttl, needsDilution, price, ok, base);
  }

  method SendBoth(b: Batch, p: Policy, ttl: int, needsDilution: bool, price: int, ok: nat -> bool, base: nat)
    returns (failed: bool, topped: bool, diluted: bool, done: seq<Request>)
    requires SanePolicy(p)
    ensures var dilution := if needsDilution then [Dilute(b.id, b.depth + p.extraDepth)] else [];
            var plan := TopUpPlan(b, p, ttl, price) + dilution;
            && CutAtFirstFailure(plan, ok, base, done)
            && (!failed ==> done == plan)
    ensures failed <==> done != [] && !ok(base + |done| - 1)
    ensures !failed ==> AllSucceed(done, ok, base) && topped == AnyTopUp(done) && diluted == AnyDilute(done)
  {
    diluted := false;
    failed, topped, done := HandleTopup(b, p, ttl, price, ok, base);
    assert done != [] ==> done[0].TopUp?;
    if !failed && needsDilution {
      ghost var dilution := [Dilute(b.id, b.depth + p.extraDepth)];
      AnyOfJoined(done, dilution);
      assert dilution[0].Dilute?;
      var more;
      failed, diluted, more := HandleDilution(b, p, ok, base + |done|);
      done := done + more;
    }
  }

  // The requests sent and, unless one failed, whether any batch was topped up and any diluted.
  method Set(bs: seq<Batch>, p: Policy, price: int, ok: nat -> bool)
    returns (sent: seq<Request>, r: Result<(bool, bool), ()>)
    requires SanePolicy(p) && forall i :: 0 <= i < |bs| ==> SaneBatch(bs[i])
    ensures price <= 0 ==> sent == [] && r.Err?
    ensures price > 0 ==> CutAtFirstFailure(FullPlan(bs, p, price), ok, 0, sent)
    ensures price > 0 ==> (r.Ok? <==> AllSucceed(FullPlan(bs, p, price), ok, 0))
    ensures r.Ok? ==> sent == FullPlan(bs, p, price) && r.value == (AnyTopUp(sent), AnyDilute(sent))
  {
    sent := [];
    if price <= 0 {
      return sent, Err(());
    }
    ghost var plans := Plans(bs, p, price);
    var topped, diluted := false, false;
    NothingSent(plans, ok);
    for i := 0 to |bs|
      invariant Progress(plans, i, ok, sent, topped, diluted)
    {
      var failed, t, d, done := SetBatch(bs[i], p, price, ok, |sent|);
      assert plans[i] == Plan(bs[i], p, price);
      if failed {
        StopsAt(plans, i, ok, sent, topped, diluted, done);
        return sent + done, Err(());
      }
      GoesOn(plans, i, ok, sent, topped, diluted, t, d, done);
      topped, diluted, sent := topped || t, diluted || d, sent + done;
    }
    AllSent(plans, ok, sent, topped, diluted);
    return sent, Ok((topped, diluted));
  }

  // The first i plans have been sent without a failure.
  ghost predicate Progress(plans: seq<seq<Request>>, i: nat, ok: nat -> bool, sent: seq<Request>, topped: bool,
                           diluted: bool) {
    && i <= |plans| && sent == Concat(plans[..i]) && AllSucceed(sent, ok, 0)
    && topped == AnyTopUp(sent) && diluted == AnyDilute(sent)
  }

  lemma GoesOn(plans: seq<seq<Request>>, i: nat, ok: nat -> bool, sent: seq<Request>, topped: bool, diluted: bool,
               t: bool, d: bool, done: seq<Request>)
    requires i < |plans| && Progress(plans, i, ok, sent, topped, diluted)
    requires done == plans[i] && AllSucceed(done, ok, |sent|) && t == AnyTopUp(done) && d == AnyDilute(done)
    ensures Progress(plans, i + 1, ok, sent + done, topped || t, diluted || d)
  {
    NextPlan(plans, i);
    AnyOfJoined(sent, done);
  }

  lemma NothingSent(plans: seq<seq<Request>>, ok: nat -> bool)
    ensures Progress(plans, 0, ok, [], false, false)
  {
  }

  lemma AllSent(plans: seq<seq<Request>>, ok: nat -> bool, sent: seq<Request>, topped: bool, diluted: bool)
    requires Progress(plans, |plans|, ok, sent, topped, diluted)
    ensures sent == Concat(plans) && CutAtFirstFailure(Concat(plans), ok, 0, sent) && AllSucceed(Concat(plans), ok, 0)
    ensures topped == AnyTopUp(sent) && diluted == AnyDilute(sent)
  {
    assert plans[..|plans|] == plans;
  }

  lemma StopsAt(plans: seq<seq<Request>>, i: nat, ok: nat -> bool, sent: seq<Request>, topped: bool,
                diluted: bool, done: seq<Request>)
    requires i < |plans| && Progress(plans, i, ok, sent, topped, diluted)
    requires CutAtFirstFailure(plans[i], ok, |sent|, done) && done != [] && !ok(|sent| + |done| - 1)
    ensures CutAtFirstFailure(Concat(plans), ok, 0, sent + done) && !AllSucceed(Concat(plans), ok, 0)
  {
    NextPlan(plans, i);
    CutJoins(sent, plans[i], Concat(plans), ok, done);
  }

  lemma NextPlan(plans: seq<seq<Request>>, i: nat)
    requires i < |plans|
    ensures Concat(plans[..i + 1]) == Concat(plans[..i]) + plans[i]
    ensures Concat(plans[..i]) + plans[i] <= Concat(plans)
  {
    assert plans[..i + 1][..i] == plans[..i];
    ConcatPrefix(plans, i + 1);
  }

  lemma CutJoins(before: seq<Request>, plan: seq<Request>, all: seq<Request>, ok: nat -> bool, done: seq<Request>)
    requires before + plan <= all && AllSucceed(before, ok, 0)
    requires CutAtFirstFailure(plan, ok, |before|, done) && done != [] && !ok(|before| + |done| - 1)
    ensures CutAtFirstFailure(all, ok, 0, before + done) && !AllSucceed(all, ok, 0)
  {
  }

  //// What the requests do to a batch

  // A top-up of `amount` pays for amount / price blocks; dilution by k spreads the balance over 2^k
  // times as many chunks and leaves the utilization of the fullest bucket as it is.
  function Effect(q: Request, b: Batch, p: Policy, price: int): Batch
    requires price > 0
  {
    match q
    case TopUp(_, amount) => b.(ttl := b.ttl + amount / price * p.secondsPerBlock)
    case Dilute(_, depth) =>
      if depth >= b.depth then b.(depth := depth, ttl := b.ttl / Pow2(depth - b.depth)) else b
  }

  function After(plan: seq<Request>, b: Batch, p: Policy, price: int): Batch
    requires price > 0
  {
    if plan == [] then b else After(plan[1..], Effect(plan[0], b, p, price), p, price)
  }

  function AfterSet(b: Batch, p: Policy, price: int): Batch
    requires price > 0 && SaneBatch(b) && SanePolicy(p)
  {
    After(Plan(b, p, price), b, p, price)
  }

  // The quantities of the plan fit in their words.
  predicate Fitting(b: Batch, p: Policy, price: int) {
    && 0 < price <= Int64.MAX
    && 0 <= b.ttl && b.ttl * SECOND <= Int64.MAX
    && 0 <= p.topUpFinalTTL <= Int64.MAX
    && p.topUpFinalTTL / SECOND * price <= Int64.MAX
  }

  function Final(p: Policy): int {
    p.topUpFinalTTL / SECOND
  }

  // The blocks a batch with `ttl` nanoseconds left is topped up by.
  function Blocks(ttl: int, p: Policy): int
    requires SanePolicy(p)
  {
    (p.topUpFinalTTL - ttl) / SECOND / p.secondsPerBlock
  }

  lemma BlocksFit(ttl: int, p: Policy, price: int)
    requires SanePolicy(p) && price > 0
    requires 0 <= ttl < p.topUpFinalTTL && p.topUpFinalTTL / SECOND * price <= Int64.MAX
    ensures 0 <= Blocks(ttl, p) <= p.topUpFinalTTL / SECOND
    ensures 0 <= Blocks(ttl, p) * price <= Int64.MAX
    ensures Blocks(ttl, p) * price / price == Blocks(ttl, p)
  {
    var seconds := (p.topUpFinalTTL - ttl) / SECOND;
    DivSmaller(seconds, p.secondsPerBlock);
    MulMonotone(Blocks(ttl, p), p.topUpFinalTTL / SECOND, price);
    MulDivCancel(Blocks(ttl, p), price);
  }

  lemma DivSmaller(x: int, d: int)
    requires x >= 0 && d >= 1
    ensures 0 <= x / d <= x
    ensures x - d < x / d * d <= x && x / d * d == x - x % d
  {
    assert x == x / d * d + x % d;
  }

  lemma MulDivCancel(x: int, d: int)
    requires d > 0
    ensures x * d / d == x
  {
    var rest := x - x * d / d;
    assert rest * d == (x * d) % d;
    if rest >= 1 {
      MulAtLeast(rest, d);
    } else if rest <= -1 {
      MulAtLeast(-rest, d);
    }
  }

  lemma MulAtLeast(a: int, d: int)
    requires a >= 1 && d > 0
    ensures a * d >= d
  {
  }

  lemma TopUpWithoutOverflow(b: Batch, p: Policy, ttl: int, price: int)
    requires SanePolicy(p) && price > 0
    requires 0 <= ttl <= Int64.MAX && 0 <= p.topUpFinalTTL <= Int64.MAX && p.topUpFinalTTL / SECOND * price <= Int64.MAX
    ensures TopUpPlan(b, p, ttl, price) ==
            if Due(ttl, p) then [TopUp(b.id, Blocks(ttl, p) * price)] else []
  {
    if ttl < p.topUpFinalTTL {
      BlocksFit(ttl, p, price);
    }
  }

  // The seconds a top-up leaves missing because only whole blocks are bought.
  function Remainder(b: Batch, p: Policy): int
    requires SanePolicy(p)
  {
    (Final(p) - b.ttl) % p.secondsPerBlock
  }

  // A batch that is topped up and not diluted ends within one block of the target, never above it,
  // exactly when the amount fits its word.
  lemma ToppedUpTTL(b: Batch, p: Policy, price: int)
    requires SaneBatch(b) && SanePolicy(p) && 0 < price <= Int64.MAX && p.topUpFinalTTL <= Int64.MAX
    requires IsValid(b, p) && !NeedsDilution(b, p) && Due(b.ttl * SECOND, p)
    ensures Final(p) - p.secondsPerBlock < AfterSet(b, p, price).ttl <= Final(p) <==>
            Blocks(b.ttl * SECOND, p) * price <= Int64.MAX
    ensures Blocks(b.ttl * SECOND, p) * price <= Int64.MAX ==>
              AfterSet(b, p, price) == b.(ttl := Final(p) - Remainder(b, p)) && b.ttl <= AfterSet(b, p, price).ttl
  {
    AfterTopUp(b, p, price);
    assert (p.topUpFinalTTL - b.ttl * SECOND) / SECOND == Final(p) - b.ttl;
    BlocksBought(Final(p) - b.ttl, p.secondsPerBlock, price, Blocks(b.ttl * SECOND, p));
  }

  lemma AfterTopUp(b: Batch, p: Policy, price: int)
    requires SaneBatch(b) && SanePolicy(p) && price > 0 && p.topUpFinalTTL <= Int64.MAX
    requires IsValid(b, p) && !NeedsDilution(b, p) && Due(b.ttl * SECOND, p)
    ensures var bought := Int64.Wrap(Blocks(b.ttl * SECOND, p) * price) / price;
            AfterSet(b, p, price) == b.(ttl := b.ttl + bought * p.secondsPerBlock)
  {
    var topUp := TopUp(b.id, Int64.Wrap(Blocks(b.ttl * SECOND, p) * price));
    assert Plan(b, p, price) == [topUp];
    SingleRequest(topUp, b, p, price);
  }

  // The seconds bought by the whole blocks in a gap: less than a block is missing exactly when the
  // amount fits its word.
  lemma BlocksBought(gap: int, perBlock: int, price: int, blocks: int)
    requires gap >= 0 && perBlock >= 1 && 0 < price <= Int64.MAX && blocks == gap / perBlock
    ensures var seconds := Int64.Wrap(blocks * price) / price * perBlock;
            && (gap - perBlock < seconds <= gap <==> blocks * price <= Int64.MAX)
            && (blocks * price <= Int64.MAX ==> seconds == gap - gap % perBlock >= 0)
  {
    DivSmaller(gap, perBlock);
    if blocks * price <= Int64.MAX {
      MulMonotone(0, blocks, price);
      MulDivCancel(blocks, price);
    } else {
      WrappedAmountBuysLess(blocks, price);
      OneBlockLess(Int64.Wrap(blocks * price) / price, blocks, perBlock);
    }
  }

  lemma OneBlockLess(bought: int, blocks: int, perBlock: nat)
    requires bought <= blocks - 1
    ensures bought * perBlock <= blocks * perBlock - perBlock
  {
    MulMonotone(bought, blocks - 1, perBlock);
  }

  lemma WrappedAmountBuysLess(blocks: int, price: int)
    requires 0 < price <= Int64.MAX && blocks * price > Int64.MAX
    ensures Int64.Wrap(blocks * price) / price <= blocks - 1
  {
    var amount := Int64.Wrap(blocks * price);
    WrappedBelow(blocks * price);
    var q := amount / price;
    assert amount == q * price + amount % price;
    if q >= blocks {
      MulMonotone(blocks, q, price);
    }
  }

  lemma SingleRequest(q: Request, b: Batch, p: Policy, price: int)
    requires price > 0
    ensures After([q], b, p, price) == Effect(q, b, p, price)
  {
  }

  // The blocks bought before a batch is diluted: computed from the time it will have afterwards.
  function BoughtBeforeDilution(b: Batch, p: Policy): int
    requires SanePolicy(p)
  {
    var later := b.ttl * SECOND / Pow2(p.extraDepth);
    if Due(later, p) then Blocks(later, p) else 0
  }

  // What a diluted batch is left with: the blocks are bought for the larger batch but paid into the
  // smaller one, so they too are divided.
  lemma DilutedState(b: Batch, p: Policy, price: int)
    requires SaneBatch(b) && SanePolicy(p) && Fitting(b, p, price)
    requires IsValid(b, p) && NeedsDilution(b, p)
    ensures AfterSet(b, p, price) ==
            b.(depth := b.depth + p.extraDepth,
               ttl := (b.ttl + BoughtBeforeDilution(b, p) * p.secondsPerBlock) / Pow2(p.extraDepth))
  {
    var later := b.ttl * SECOND / Pow2(p.extraDepth);
    DivSmaller(b.ttl * SECOND, Pow2(p.extraDepth));
    TopUpWithoutOverflow(b, p, later, price);
    var dilution := Dilute(b.id, b.depth + p.extraDepth);
    if Due(later, p) {
      BlocksFit(later, p, price);
      var topUp := TopUp(b.id, Blocks(later, p) * price);
      assert Plan(b, p, price) == [topUp, dilution];
      TwoRequests(topUp, dilution, b, p, price);
    } else {
      assert Plan(b, p, price) == [dilution];
      SingleRequest(dilution, b, p, price);
    }
  }

  lemma TwoRequests(q: Request, r: Request, b: Batch, p: Policy, price: int)
    requires price > 0
    ensures After([q, r], b, p, price) == Effect(r, Effect(q, b, p, price), p, price)
  {
    assert [q, r][1..] == [r];
    SingleRequest(r, Effect(q, b, p, price), p, price);
  }

  function Times(x: real, m: nat): real {
    x * m as real
  }

  lemma TimesMonotone(x: real, y: real, m: nat)
    requires m > 0
    ensures x < y <==> Times(x, m) < Times(y, m)
  {
    RealMulMonotone(x, y, m as real);
  }

  // Dilution by k divides the usage by 2^k.
  lemma DilutionDividesUsage(b: Batch, k: nat)
    requires SaneBatch(b) && b.depth + k <= b.bucketDepth + 62
    ensures Times(Usage(b.(depth := b.depth + k)), Pow2(k)) == Usage(b)
  {
    Pow2Add(b.depth - b.bucketDepth, k);
    assert b.depth + k - b.bucketDepth == (b.depth - b.bucketDepth) + k;
    PercentScales(b.utilization, Pow2(b.depth - b.bucketDepth), Pow2(k), Pow2(b.depth + k - b.bucketDepth));
  }

  lemma PercentScales(u: nat, c: nat, m: nat, product: nat)
    requires c > 0 && m > 0 && product == c * m && product > 0
    ensures Times(Percent(u, product), m) == Percent(u, c)
  {
    IntRealMul(c, m);
    DivideTwice(u as real, c as real, m as real);
  }

  lemma DivideTwice(u: real, c: real, m: real)
    requires c > 0.0 && m > 0.0
    ensures c * m > 0.0
    ensures (u / (c * m) * 100.0) * m == u / c * 100.0
  {
    var y := u / (c * m);
    assert y * (c * m) == u;
    assert (y * m) * c == u;
    assert y * m == u / c;
  }

  // The usage from which on a batch still reaches the threshold after n dilutions.
  function UsageLimit(p: Policy, n: nat): real {
    if n == 0 then p.utilizationThreshold else Times(UsageLimit(p, n - 1), Pow2(p.extraDepth))
  }

  // One dilution takes the limit for n + 1 dilutions to the limit for n.
  lemma DilutionLowersLimit(b: Batch, p: Policy, n: nat)
    requires SaneBatch(b) && b.depth + p.extraDepth <= b.bucketDepth + 62
    ensures Usage(b.(depth := b.depth + p.extraDepth)) >= UsageLimit(p, n) <==> Usage(b) >= UsageLimit(p, n + 1)
  {
    DilutionDividesUsage(b, p.extraDepth);
    TimesMonotone(Usage(b.(depth := b.depth + p.extraDepth)), UsageLimit(p, n), Pow2(p.extraDepth));
  }

  // A diluted batch is diluted again exactly when its usage still reaches the threshold.
  lemma DilutedAgain(b: Batch, p: Policy)
    requires SaneBatch(b) && b.depth + p.extraDepth <= b.bucketDepth + 62
    ensures NeedsDilution(b.(depth := b.depth + p.extraDepth), p) <==>
            Usage(b) >= Times(p.utilizationThreshold, Pow2(p.extraDepth))
  {
    DilutionLowersLimit(b, p, 0);
    assert UsageLimit(p, 1) == Times(UsageLimit(p, 0), Pow2(p.extraDepth));
  }

  // A full batch falls below the usage threshold when it is diluted.
  predicate DilutionSuffices(p: Policy) {
    Times(p.utilizationThreshold, Pow2(p.extraDepth)) > 100.0
  }

  // So not when the threshold is above what is left of a full batch.
  lemma NotDilutedAgain(b: Batch, p: Policy)
    requires SaneBatch(b) && b.depth + p.extraDepth <= b.bucketDepth + 62
    requires b.utilization <= Pow2(b.depth - b.bucketDepth) && DilutionSuffices(p)
    ensures !NeedsDilution(b.(depth := b.depth + p.extraDepth), p)
  {
    DilutedAgain(b, p);
    UsageAtMostFull(b);
  }

  lemma UsageAtMostFull(b: Batch)
    requires SaneBatch(b) && b.utilization <= Pow2(b.depth - b.bucketDepth)
    ensures Usage(b) <= 100.0
  {
    PercentAtMostFull(b.utilization, Pow2(b.depth - b.bucketDepth));
  }

  lemma PercentAtMostFull(u: nat, c: nat)
    requires c > 0 && u <= c
    ensures Percent(u, c) <= 100.0
  {
    var y := u as real / c as real;
    assert y * c as real == u as real;
    RealMulMonotone(1.0, y, c as real);
  }

  //// Repeating Set

  // A plan that buys nothing.
  predicate Pointless(plan: seq<Request>) {
    forall i :: 0 <= i < |plan| ==> plan[i].TopUp? && plan[i].amount == 0
  }

  // The target is at least one block above the threshold.
  predicate Coherent(p: Policy) {
    p.ttlThreshold <= p.topUpFinalTTL - p.secondsPerBlock * SECOND
  }

  // A second Set changes nothing on a batch that is not due for dilution. It sends a request, and
  // then a top-up by nothing, exactly when the first top-up ended below target and threshold.
  lemma SecondSetIsIdle(b: Batch, p: Policy, price: int)
    requires SanePolicy(p) && SaneBatch(b) && Fitting(b, p, price)
    requires IsValid(b, p) ==> !NeedsDilution(b, p)
    ensures var first := AfterSet(b, p, price);
            && SaneBatch(first) && Fitting(first, p, price) && (IsValid(first, p) ==> !NeedsDilution(first, p))
            && AfterSet(first, p, price) == first
            && Pointless(Plan(first, p, price))
            && (Plan(first, p, price) != [] <==>
                IsValid(b, p) && Due(b.ttl * SECOND, p) && Due((Final(p) - Remainder(b, p)) * SECOND, p))
  {
    if IsValid(b, p) {
      TopUpWithoutOverflow(b, p, b.ttl * SECOND, price);
      if Due(b.ttl * SECOND, p) {
        BlocksFit(b.ttl * SECOND, p, price);
        ToppedUpTTL(b, p, price);
        ToppedUpAgain(b.(ttl := Final(p) - Remainder(b, p)), p, price);
      }
    }
  }

  // A batch less than one block short of the target gets a top-up by nothing if any.
  lemma ToppedUpAgain(b: Batch, p: Policy, price: int)
    requires SanePolicy(p) && SaneBatch(b) && Fitting(b, p, price)
    requires IsValid(b, p) && !NeedsDilution(b, p) && Final(p) - p.secondsPerBlock < b.ttl <= Final(p)
    ensures Plan(b, p, price) == if Due(b.ttl * SECOND, p) then [TopUp(b.id, 0)] else []
    ensures AfterSet(b, p, price) == b
  {
    TopUpWithoutOverflow(b, p, b.ttl * SECOND, price);
    if Due(b.ttl * SECOND, p) {
      NoBlockMissing(b.ttl, p);
      SingleRequest(TopUp(b.id, 0), b, p, price);
    }
  }

  lemma NoBlockMissing(left: int, p: Policy)
    requires SanePolicy(p) && Final(p) - p.secondsPerBlock < left <= Final(p)
    ensures Blocks(left * SECOND, p) == 0
  {
    assert (p.topUpFinalTTL - left * SECOND) / SECOND == Final(p) - left;
  }

  lemma CoherentSendsNothing(b: Batch, p: Policy)
    requires SanePolicy(p) && Coherent(p)
    ensures !Due((Final(p) - Remainder(b, p)) * SECOND, p)
  {
  }

  // What one Set makes of a batch it dilutes, apart from the time left.
  lemma AfterDilution(b: Batch, p: Policy, price: int)
    requires SanePolicy(p) && p.extraDepth >= 1
    requires SaneBatch(b) && b.depth + p.extraDepth <= b.bucketDepth + 62 && Fitting(b, p, price)
    requires IsValid(b, p) && NeedsDilution(b, p)
    ensures var diluted := AfterSet(b, p, price);
            && diluted == b.(depth := b.depth + p.extraDepth, ttl := diluted.ttl)
            && SaneBatch(diluted) && Fitting(diluted, p, price)
  {
    DilutedState(b, p, price);
    DividedTimeFits(b, p, price);
  }

  lemma DividedTimeFits(b: Batch, p: Policy, price: int)
    requires SanePolicy(p) && p.extraDepth >= 1 && Fitting(b, p, price)
    ensures 0 <= (b.ttl + BoughtBeforeDilution(b, p) * p.secondsPerBlock) / Pow2(p.extraDepth) <= Int64.MAX / SECOND
  {
    BoughtAtMostFinal(b, p, price);
    Pow2Monotone(1, p.extraDepth);
    HalfOfSum(b.ttl, BoughtBeforeDilution(b, p) * p.secondsPerBlock, Pow2(p.extraDepth), Int64.MAX / SECOND);
  }

  lemma BoughtAtMostFinal(b: Batch, p: Policy, price: int)
    requires SanePolicy(p) && Fitting(b, p, price)
    ensures 0 <= BoughtBeforeDilution(b, p) * p.secondsPerBlock <= Final(p)
  {
    DivSmaller(b.ttl * SECOND, Pow2(p.extraDepth));
    var later := b.ttl * SECOND / Pow2(p.extraDepth);
    if Due(later, p) {
      var seconds := (p.topUpFinalTTL - later) / SECOND;
      assert 0 <= seconds <= Final(p);
      DivSmaller(seconds, p.secondsPerBlock);
      assert 0 <= Blocks(later, p);
      MulMonotone(0, Blocks(later, p), p.secondsPerBlock);
    }
  }

  lemma HalfOfSum(x: int, y: int, d: int, most: int)
    requires 0 <= x <= most && 0 <= y <= most && d >= 2
    ensures 0 <= (x + y) / d <= most
  {
    var q := (x + y) / d;
    assert x + y == q * d + (x + y) % d;
    assert q >= 0 ==> q * 2 <= q * d;
    if q < 0 {
      MulAtLeast(-q, d);
    }
  }

  // n further Sets, as long as the shifts stay below the word size.
  function AfterSets(b: Batch, p: Policy, price: int, n: nat): Batch
    requires price > 0 && SanePolicy(p)
    decreases n
  {
    if n == 0 || !SaneBatch(b) then b else AfterSets(AfterSet(b, p, price), p, price, n - 1)
  }

  // n dilutions are enough for the usage of the batch, and its depth allows for them.
  predicate EnoughDilutions(b: Batch, p: Policy, n: nat) {
    SaneBatch(b) && Usage(b) < UsageLimit(p, n) && b.depth + n * p.extraDepth <= b.bucketDepth + 62
  }

  // Nothing changes any more, and a further Set buys and dilutes nothing.
  ghost predicate AtRest(b: Batch, p: Policy, price: int)
    requires price > 0 && SanePolicy(p)
  {
    && SaneBatch(b) && AfterSet(b, p, price) == b && Pointless(Plan(b, p, price))
    && (Coherent(p) ==> Plan(b, p, price) == [])
  }

  // If n dilutions are enough, n + 1 Sets bring the batch to rest: each dilution may leave it short
  // of time, the last Set tops it up.
  lemma {:induction false} SetsSettle(b: Batch, p: Policy, price: int, n: nat)
    requires SanePolicy(p) && Fitting(b, p, price) && EnoughDilutions(b, p, n)
    ensures AtRest(AfterSets(b, p, price, n + 1), p, price)
    decreases n
  {
    var first := AfterSet(b, p, price);
    if IsValid(b, p) && NeedsDilution(b, p) {
      FewerDilutionsLeft(b, p, price, n);
      SetsSettle(first, p, price, n - 1);
    } else {
      SettledAfterOne(b, p, price);
      RestLasts(first, p, price, n);
    }
  }

  lemma FewerDilutionsLeft(b: Batch, p: Policy, price: int, n: nat)
    requires SanePolicy(p) && Fitting(b, p, price) && EnoughDilutions(b, p, n)
    requires IsValid(b, p) && NeedsDilution(b, p)
    ensures n >= 1 && Fitting(AfterSet(b, p, price), p, price) && EnoughDilutions(AfterSet(b, p, price), p, n - 1)
  {
    assert n >= 1 by {
      assert UsageLimit(p, 0) == p.utilizationThreshold;
    }
    if p.extraDepth == 0 {
      NoExtraDepth(p, n);
    }
    OneDilutionLess(p.extraDepth, n);
    AfterDilution(b, p, price);
    FewerDilutionsNeeded(b, p, n, AfterSet(b, p, price));
  }

  lemma FewerDilutionsNeeded(b: Batch, p: Policy, n: nat, diluted: Batch)
    requires n >= 1 && EnoughDilutions(b, p, n) && b.depth + p.extraDepth <= b.bucketDepth + 62
    requires diluted == b.(depth := b.depth + p.extraDepth, ttl := diluted.ttl)
    ensures EnoughDilutions(diluted, p, n - 1)
  {
    OneDilutionLess(p.extraDepth, n);
    DilutionLowersLimit(b.(ttl := diluted.ttl), p, n - 1);
  }

  lemma OneDilutionLess(k: nat, n: nat)
    requires n >= 1
    ensures n * k == k + (n - 1) * k && k <= n * k
  {
    MulMonotone(0, n - 1, k);
  }

  // Without extra depth no number of dilutions helps.
  lemma {:induction false} NoExtraDepth(p: Policy, n: nat)
    requires p.extraDepth == 0
    ensures UsageLimit(p, n) == p.utilizationThreshold
  {
    if n > 0 {
      NoExtraDepth(p, n - 1);
      assert Pow2(0) == 1;
    }
  }

  lemma {:induction false} RestLasts(b: Batch, p: Policy, price: int, n: nat)
    requires price > 0 && SanePolicy(p) && SaneBatch(b) && AfterSet(b, p, price) == b
    ensures AfterSets(b, p, price, n) == b
  {
    if n > 0 {
      RestLasts(b, p, price, n - 1);
    }
  }

  // Two Sets are enough unless the batch is so full that one dilution leaves it due for the next.
  lemma TwoSetsSettle(b: Batch, p: Policy, price: int)
    requires SanePolicy(p) && SaneBatch(b) && Fitting(b, p, price)
    requires IsValid(b, p) && NeedsDilution(b, p) ==>
               && b.depth + p.extraDepth <= b.bucketDepth + 62
               && Usage(b) < Times(p.utilizationThreshold, Pow2(p.extraDepth))
    ensures SaneBatch(AfterSet(b, p, price)) && AtRest(AfterSet(AfterSet(b, p, price), p, price), p, price)
  {
    if IsValid(b, p) && NeedsDilution(b, p) {
      assert UsageLimit(p, 1) == Times(UsageLimit(p, 0), Pow2(p.extraDepth));
      assert EnoughDilutions(b, p, 1);
      FewerDilutionsLeft(b, p, price, 1);
      SettledAfterOne(AfterSet(b, p, price), p, price);
    } else {
      SettledAfterOne(b, p, price);
    }
  }

  lemma SettledAfterOne(b: Batch, p: Policy, price: int)
    requires SanePolicy(p) && SaneBatch(b) && Fitting(b, p, price)
    requires IsValid(b, p) ==> !NeedsDilution(b, p)
    ensures AtRest(AfterSet(b, p, price), p, price)
  {
    SecondSetIsIdle(b, p, price);
    if Coherent(p) {
      CoherentSendsNothing(b, p);
    }
  }

  // The Set over a whole list of batches that follows n + 1 others buys and dilutes nothing.
  lemma SettledListSendsNothing(bs: seq<Batch>, p: Policy, price: int, n: nat)
    requires SanePolicy(p) && price > 0
    requires forall i :: 0 <= i < |bs| ==> Fitting(bs[i], p, price) && EnoughDilutions(bs[i], p, n)
    ensures var rested := seq(|bs|, i requires 0 <= i < |bs| => AfterSets(bs[i], p, price, n + 1));
            && (forall i :: 0 <= i < |rested| ==> SaneBatch(rested[i]))
            && Pointless(FullPlan(rested, p, price))
            && (Coherent(p) ==> FullPlan(rested, p, price) == [])
  {
    var rested := seq(|bs|, i requires 0 <= i < |bs| => AfterSets(bs[i], p, price, n + 1));
    forall i | 0 <= i < |bs|
      ensures AtRest(rested[i], p, price)
    {
      SetsSettle(bs[i], p, price, n);
    }
    PointlessConcat(Plans(rested, p, price));
    if Coherent(p) {
      EmptyPlansConcat(Plans(rested, p, price));
    }
  }

  lemma {:induction false} PointlessConcat(plans: seq<seq<Request>>)
    requires forall i :: 0 <= i < |plans| ==> Pointless(plans[i])
    ensures Pointless(Concat(plans))
  {
    if plans != [] {
      PointlessConcat(plans[..|plans| - 1]);
    }
  }

  lemma {:induction false} EmptyPlansConcat(plans: seq<seq<Request>>)
    requires forall i :: 0 <= i < |plans| ==> plans[i] == []
    ensures Concat(plans) == []
  {
    if plans != [] {
      EmptyPlansConcat(plans[..|plans| - 1]);
    }
  }

  // One Set is enough for a batch it dilutes exactly when the batch is left with no time, or is not
  // due for dilution again and its divided time clears the threshold or the target.
  lemma DilutedIsIdle(b: Batch, p: Policy, price: int)
    requires SanePolicy(p) && SaneBatch(b) && b.depth + p.extraDepth <= b.bucketDepth + 62 && Fitting(b, p, price)
    requires IsValid(b, p) && NeedsDilution(b, p)
    ensures SaneBatch(AfterSet(b, p, price))
    ensures var left := (b.ttl + BoughtBeforeDilution(b, p) * p.secondsPerBlock) / Pow2(p.extraDepth);
            Plan(AfterSet(b, p, price), p, price) == [] <==>
            left <= 0 || (Usage(b) < Times(p.utilizationThreshold, Pow2(p.extraDepth)) && !Due(left * SECOND, p))
  {
    DilutedState(b, p, price);
    DilutedAgain(b, p);
    var diluted := AfterSet(b, p, price);
    assert Usage(diluted) == Usage(b.(depth := b.depth + p.extraDepth));
    if p.extraDepth == 0 {
      assert Pow2(0) == 1;
    } else {
      AfterDilution(b, p, price);
      TopUpWithoutOverflow(diluted, p, diluted.ttl * SECOND, price);
    }
  }

  // A batch diluted once and left below the threshold, which the next Set tops up again.
  lemma DilutedToppedUpTwice()
    ensures var b := Batch("b", "", true, 1, 17, 17, 100);
            var p := Policy(900 * SECOND, 1000 * SECOND, 80.0, 1, 5, [], []);
            && SaneBatch(b) && SanePolicy(p)
            && Plan(b, p, 1) == [TopUp("b", 190), Dilute("b", 18)]
            && AfterSet(b, p, 1) == b.(depth := 18, ttl := 525)
            && Plan(AfterSet(b, p, 1), p, 1) == [TopUp("b", 95)]
  {
    var b := Batch("b", "", true, 1, 17, 17, 100);
    var p := Policy(900 * SECOND, 1000 * SECOND, 80.0, 1, 5, [], []);
    assert Pow2(0) == 1 && Pow2(1) == 2;
    assert Usage(b) == 100.0;
    TwoRequests(TopUp("b", 190), Dilute("b", 18), b, p, 1);
    var diluted := b.(depth := 18, ttl := 525);
    assert Usage(diluted) == 50.0;
  }

  //// Durations that do not fit a nanosecond counter

  // The time left as the program means it: without the overflow.
  function TrueTTL(b: Batch, p: Policy): int
    requires SaneBatch(b)
  {
    if NeedsDilution(b, p) then b.ttl * SECOND / Pow2(p.extraDepth) else b.ttl * SECOND
  }

  // A computed time left that makes the program send a top-up: the difference from the target is
  // positive in 64 bits.
  predicate TakenForDue(ttl: int, p: Policy) {
    var missing := p.topUpFinalTTL - ttl;
    ttl <= p.ttlThreshold && (0 < missing <= Int64.MAX || missing < Int64.MIN)
  }

  lemma TopUpWhenTakenForDue(b: Batch, p: Policy, ttl: int, price: int)
    requires SanePolicy(p) && Int64.Fits(ttl) && Int64.Fits(p.topUpFinalTTL)
    ensures TopUpPlan(b, p, ttl, price) != [] <==> TakenForDue(ttl, p)
  {
  }

  // The duration of a batch fits the counter up to 292 years, and beyond them comes out too short.
  lemma OverflowShortens(b: Batch, p: Policy)
    requires SaneBatch(b) && SanePolicy(p) && b.ttl > 0
    ensures b.ttl <= Int64.MAX / SECOND ==> 0 <= DecisionTTL(b, p) == TrueTTL(b, p)
    ensures b.ttl > Int64.MAX / SECOND ==> DecisionTTL(b, p) < TrueTTL(b, p)
  {
    var exact, d := b.ttl * SECOND, Pow2(p.extraDepth);
    DivSmaller(exact, d);
    if b.ttl > Int64.MAX / SECOND {
      Pow2UpTo62(p.extraDepth);
      WrappedBelow(exact);
      QuotBelow(Int64.Wrap(exact), exact, d);
    }
  }

  lemma WrappedBelow(x: int)
    requires x > Int64.MAX
    ensures Int64.Wrap(x) + Int64.MODULUS <= x
  {
  }

  lemma QuotBelow(low: int, high: int, d: int)
    requires 1 <= d <= high && (low < 0 || low + d <= high)
    ensures Int64.Quot(low, d) < high / d
  {
    var q := high / d;
    assert high == q * d + high % d;
    if low < 0 {
      DivSmaller(-low, d);
      if q <= 0 {
        MulMonotone(q, 0, d);
        assert false;
      }
    } else {
      DivSmaller(low, d);
      if q <= low / d {
        MulMonotone(q, low / d, d);
        assert false;
      }
    }
  }

  // Whether a top-up is sent is decided rightly exactly when the time left, as computed, is not so
  // short that its difference from the target overflows where a top-up is due, and is not taken for
  // due where none is; so always when it fits the counter and the target is not negative.
  lemma TopUpDecidedRightly(b: Batch, p: Policy, price: int)
    requires SaneBatch(b) && SanePolicy(p) && IsValid(b, p) && Int64.Fits(p.topUpFinalTTL)
    ensures var right := AnyTopUp(Plan(b, p, price)) <==> Due(TrueTTL(b, p), p);
            && (right <==> if Due(TrueTTL(b, p), p) then p.topUpFinalTTL - DecisionTTL(b, p) <= Int64.MAX
                           else !TakenForDue(DecisionTTL(b, p), p))
            && (b.ttl <= Int64.MAX / SECOND && 0 <= p.topUpFinalTTL ==> right)
  {
    var ttl := DecisionTTL(b, p);
    OverflowShortens(b, p);
    DecisionFits(b, p);
    TopUpWhenTakenForDue(b, p, ttl, price);
    var topUp := TopUpPlan(b, p, ttl, price);
    assert topUp != [] ==> topUp[0].TopUp?;
    var dilution := if NeedsDilution(b, p) then [Dilute(b.id, b.depth + p.extraDepth)] else [];
    assert Plan(b, p, price) == topUp + dilution;
    AnyOfJoined(topUp, dilution);
    assert AnyTopUp(Plan(b, p, price)) <==> topUp != [];
  }

  lemma DecisionFits(b: Batch, p: Policy)
    requires SaneBatch(b)
    ensures Int64.Fits(DecisionTTL(b, p))
  {
    var low := Int64.Wrap(b.ttl * SECOND);
    if low >= 0 {
      DivSmaller(low, Pow2(p.extraDepth));
    } else {
      DivSmaller(-low, Pow2(p.extraDepth));
    }
  }

  // For a batch that is not diluted: none is due beyond 292 years, so the decision is right exactly
  // when neither computation overflows, or what is left in 64 bits is not taken for due.
  lemma UndilutedDecidedRightly(b: Batch, p: Policy, price: int)
    requires SaneBatch(b) && SanePolicy(p) && IsValid(b, p) && Int64.Fits(p.topUpFinalTTL)
    requires !NeedsDilution(b, p)
    ensures var low := Int64.Wrap(b.ttl * SECOND);
            var left := b.ttl * 1_000_000_000;
            (Plan(b, p, price) != [] <==> left <= p.ttlThreshold && left < p.topUpFinalTTL) <==>
            || (b.ttl <= Int64.MAX / SECOND && p.topUpFinalTTL - low >= Int64.MIN)
            || !TakenForDue(low, p)
  {
    TopUpDecidedRightly(b, p, price);
    OverflowShortens(b, p);
    assert Plan(b, p, price) != [] ==> Plan(b, p, price)[0].TopUp?;
  }

  // So a batch good for some 380 years is taken for an expired one and topped up.
  lemma HugeTTLOverflows()
    ensures var b := Batch("b", "", true, 1, 18, 17, 12_000_000_000);
            var p := Policy(900 * SECOND, 1000 * SECOND, 80.0, 1, 5, [], []);
            && SaneBatch(b) && SanePolicy(p) && b.ttl * SECOND > p.topUpFinalTTL
            && Plan(b, p, 1) != []
  {
  }
}
