/**
 The block-time estimator (pkg/swap/block.go, pkg/swap/cache.go): the timestamps of the latest and
 of an earlier block give the average block time; when the earlier block is not available the
 offset is halved. The last estimate is cached.
 */
module BlockTime {
  import opened Wrappers
  import opened Powers
  import opened Arithmetic

  datatype FetchError = EmptyTimestamp | OtherError

  datatype Request = LatestNumber | Timestamp(block: int)

  // One call with the answers its node gives: the latest block number, that block's timestamp, and
  // the answer to the k-th request for an earlier one.
  datatype Call = Call(offset: int, refresh: bool, latest: Result<int, FetchError>,
                       latestStamp: Result<int, FetchError>, stamps: (nat, int) -> Result<int, FetchError>)

  //// The halving search

  datatype Found = Found(offset: int, stamp: int)

  function Halved(offset: int): (h: int)
    requires offset > 1
    ensures 1 <= h < offset
    ensures 2 * h <= offset <= 2 * h + 1
  {
    var h := offset / 2;
    if h > 1 then h else 1
  }

  // The blocks asked for, and the offset and timestamp settled on.
  function Search(stamps: (nat, int) -> Result<int, FetchError>, latest: int, offset: int,
                  k: nat): (r: (seq<int>, Result<Found, FetchError>))
    requires offset >= 1
    decreases offset
  {
    var block := latest - offset;
    match stamps(k, block)
    case Ok(stamp) => ([block], Ok(Found(offset, stamp)))
    case Err(e) =>
      if e != EmptyTimestamp || offset == 1 then ([block], Err(e))
      else
        var rest := Search(stamps, latest, Halved(offset), k + 1);
        ([block] + rest.0, rest.1)
  }

  // Few requests, always for later blocks than before, all between the first one and the latest.
  lemma {:induction false} SearchRequests(stamps: (nat, int) -> Result<int, FetchError>, latest: int,
                                          offset: int, k: nat)
    requires offset >= 1
    ensures var asked := Search(stamps, latest, offset, k).0;
            && 1 <= |asked| <= FloorLog2(offset) + 1
            && asked[0] == latest - offset
            && (forall i, j :: 0 <= i < j < |asked| ==> asked[i] < asked[j])
            && (forall i :: 0 <= i < |asked| ==> latest - offset <= asked[i] < latest)
    ensures var r := Search(stamps, latest, offset, k);
            r.1.Ok? ==> 1 <= r.1.value.offset <= offset && r.0[|r.0| - 1] == latest - r.1.value.offset
    decreases offset
  {
    var r := Search(stamps, latest, offset, k);
    if |r.0| > 1 {
      SearchRequests(stamps, latest, Halved(offset), k + 1);
      assert FloorLog2(offset) == 1 + FloorLog2(offset / 2);
      assert Halved(offset) == offset / 2;
      var rest := Search(stamps, latest, Halved(offset), k + 1).0;
      assert r.0 == [latest - offset] + rest;
    }
  }

  ghost predicate Halving(asked: seq<int>, latest: int) {
    forall i, j :: 0 <= i && j == i + 1 && j < |asked| ==> latest - asked[j] == (latest - asked[i]) / 2
  }

  // All but the last request find a block without a timestamp.
  ghost predicate EmptyButLast(asked: seq<int>, stamps: (nat, int) -> Result<int, FetchError>, k: nat) {
    forall i: nat :: i < |asked| - 1 ==> stamps(k + i, asked[i]) == Err(EmptyTimestamp)
  }

  // The search goes on exactly while blocks come without a timestamp, halving the offset each time, and
  // ends with what its last request is answered.
  lemma {:induction false} SearchFollowsAnswers(stamps: (nat, int) -> Result<int, FetchError>, latest: int,
                                                offset: int, k: nat)
    requires offset >= 1
    ensures var (asked, r) := Search(stamps, latest, offset, k);
            var n := |asked| - 1;
            && n >= 0 && asked[0] == latest - offset && Halving(asked, latest) && EmptyButLast(asked, stamps, k)
            && (r.Ok? ==> stamps(k + n, asked[n]) == Ok(r.value.stamp) && r.value.offset == latest - asked[n])
            && (r.Err? ==> stamps(k + n, asked[n]) == Err(r.error)
                           && (r.error == EmptyTimestamp ==> asked[n] == latest - 1))
    decreases offset
  {
    var (asked, r) := Search(stamps, latest, offset, k);
    if |asked| > 1 {
      SearchFollowsAnswers(stamps, latest, Halved(offset), k + 1);
      var rest := Search(stamps, latest, Halved(offset), k + 1).0;
      HalvingCons(rest, latest, offset);
      EmptyCons(rest, stamps, k, latest - offset);
    }
  }

  lemma HalvingCons(rest: seq<int>, latest: int, offset: int)
    requires rest != [] && offset > 1 && rest[0] == latest - Halved(offset) && Halving(rest, latest)
    ensures Halving([latest - offset] + rest, latest)
  {
  }

  lemma EmptyCons(rest: seq<int>, stamps: (nat, int) -> Result<int, FetchError>, k: nat, block: int)
    requires rest != [] && stamps(k, block) == Err(EmptyTimestamp) && EmptyButLast(rest, stamps, k + 1)
    ensures EmptyButLast([block] + rest, stamps, k)
  {
    forall i: nat | i < |rest|
      ensures stamps(k + i, ([block] + rest)[i]) == Err(EmptyTimestamp)
    {
      if i > 0 {
        assert (k + 1) + (i - 1) == k + i;
      }
    }
  }

  // When exactly the blocks from some height on have a timestamp, the search settles on the asked
  // offset if its block is there, and otherwise on at least half of the largest offset that is.
  lemma {:induction false} SearchSettles(stamps: (nat, int) -> Result<int, FetchError>, latest: int,
                                         offset: int, k: nat, height: int)
    requires offset >= 1
    requires forall i: nat, b :: stamps(i, b).Ok? <==> b >= height
    requires forall i: nat, b :: b < height ==> stamps(i, b) == Err(EmptyTimestamp)
    ensures var r := Search(stamps, latest, offset, k);
            var largest := latest - height;
            && (r.1.Ok? <==> largest >= 1)
            && (r.1.Err? ==> r.1.error == EmptyTimestamp)
            && (1 <= offset <= largest ==> r.1.Ok? && r.1.value.offset == offset && |r.0| == 1)
            && (1 <= largest < offset ==> r.1.Ok? && r.1.value.offset <= largest <= 2 * r.1.value.offset)
    decreases offset
  {
    var largest := latest - height;
    if offset > largest {
      assert stamps(k, latest - offset) == Err(EmptyTimestamp);
      if offset > 1 {
        SearchSettles(stamps, latest, Halved(offset), k + 1, height);
      }
    } else {
      assert stamps(k, latest - offset).Ok?;
    }
  }

  //// The estimate

  function Round(x: real): int {
    if x >= 0.0 then (x + 0.5).Floor else -((-x + 0.5).Floor)
  }

  function Estimate(latestStamp: int, earlierStamp: int, offset: int): int
    requires offset >= 1
  {
    Round((latestStamp - earlierStamp) as real / offset as real)
  }

  // Rounding goes to the nearest integer, and away from zero in the middle.
  lemma RoundNearest(x: real)
    ensures -0.5 <= Round(x) as real - x <= 0.5
    ensures x >= 0.0 ==> -0.5 < Round(x) as real - x
    ensures x <= 0.0 ==> Round(x) as real - x < 0.5
  {
  }

  // So the estimate is the average block time to the nearest second.
  lemma EstimateNearest(latestStamp: int, earlierStamp: int, offset: int)
    requires offset >= 1
    ensures var off := offset * Estimate(latestStamp, earlierStamp, offset) - (latestStamp - earlierStamp);
            && -offset <= 2 * off <= offset
            && (latestStamp >= earlierStamp ==> -offset < 2 * off)
  {
    var total := latestStamp - earlierStamp;
    var x := total as real / offset as real;
    RoundNearest(x);
    NearestQuotient(total, offset, x, Round(x));
  }

  lemma NearestQuotient(total: int, n: nat, x: real, q: int)
    requires n > 0 && x == total as real / n as real
    requires -0.5 <= q as real - x <= 0.5 && (x >= 0.0 ==> -0.5 < q as real - x)
    ensures -(n as int) <= 2 * (n * q - total) <= n
    ensures total >= 0 ==> -(n as int) < 2 * (n * q - total)
  {
    DoubledQuotient(total, n, x);
    ScaledOrder(2 * q - 1, x + x, 2 * total, n);
    ScaledOrder(2 * q + 1, x + x, 2 * total, n);
    ScaledOrder(0, x + x, 2 * total, n);
    assert (2 * q - 1) * n == 2 * (n * q) - n && (2 * q + 1) * n == 2 * (n * q) + n;
  }

  lemma DoubledQuotient(total: int, n: nat, x: real)
    requires n > 0 && x == total as real / n as real
    ensures (x + x) * n as real == (2 * total) as real
  {
    assert x * n as real == total as real;
  }

  lemma ScaledOrder(k: int, y: real, t: int, n: nat)
    requires n > 0 && y * n as real == t as real
    ensures k as real < y <==> k * n < t
    ensures y < k as real <==> t < k * n
  {
    RealMulMonotone(k as real, y, n as real);
    RealMulMonotone(y, k as real, n as real);
    IntRealMul(k, n);
    assert (k * n) as real < t as real <==> k * n < t;
    assert t as real < (k * n) as real <==> t < k * n;
  }

  lemma RoundWithin(x: real, lo: int, hi: int)
    requires lo as real <= x <= hi as real
    ensures lo <= Round(x) <= hi
  {
  }

  function Gap(time: int -> int, block: int): int {
    time(block + 1) - time(block)
  }

  lemma {:induction false} GapsAddUp(time: int -> int, earlier: int, n: nat, lo: int, hi: int)
    requires forall b :: earlier <= b < earlier + n ==> lo <= Gap(time, b) <= hi
    ensures n * lo <= time(earlier + n) - time(earlier) <= n * hi
  {
    if n > 0 {
      GapsAddUp(time, earlier, n - 1, lo, hi);
      assert lo <= Gap(time, earlier + (n - 1)) <= hi;
      assert n * lo == (n - 1) * lo + lo && n * hi == (n - 1) * hi + hi;
    }
  }

  // If every block took between lo and hi seconds, so does the estimate.
  lemma EstimateWithinGaps(time: int -> int, latest: int, offset: int, lo: int, hi: int)
    requires offset >= 1
    requires forall b :: latest - offset <= b < latest ==> lo <= Gap(time, b) <= hi
    ensures lo <= Estimate(time(latest), time(latest - offset), offset) <= hi
  {
    GapsAddUp(time, latest - offset, offset, lo, hi);
    var total := time(latest) - time(latest - offset);
    QuotientWithin(total, offset, lo, hi);
    RoundWithin(total as real / offset as real, lo, hi);
  }

  lemma QuotientWithin(total: int, n: nat, lo: int, hi: int)
    requires n > 0 && n * lo <= total <= n * hi
    ensures lo as real <= total as real / n as real <= hi as real
  {
    var x, r := total as real / n as real, n as real;
    assert x * r == total as real;
    IntRealMul(lo, n);
    IntRealMul(hi, n);
    RealMulMonotone(x, lo as real, r);
    RealMulMonotone(hi as real, x, r);
  }

  //// One call

  datatype Reply = Reply(result: Result<int, FetchError>, requests: seq<Request>)

  predicate SaneCall(c: Call) {
    c.offset >= 1 && (c.latest.Ok? ==> c.latest.value >= 2)
  }

  function Stamps(blocks: seq<int>): seq<Request> {
    seq(|blocks|, i requires 0 <= i < |blocks| => Timestamp(blocks[i]))
  }

  // The first offset tried: at most half of the chain.
  function StartOffset(c: Call): (o: int)
    requires SaneCall(c) && c.latest.Ok?
    ensures 1 <= o <= c.offset && 2 * o <= c.latest.value
  {
    if c.offset > c.latest.value / 2 then c.latest.value / 2 else c.offset
  }

  // The reply, and the cached block time afterwards.
  function Fetch(cached: int, c: Call): (Reply, int)
    requires SaneCall(c)
  {
    if cached > 0 && !c.refresh then (Reply(Ok(cached), []), cached)
    else if c.latest.Err? then (Reply(Err(c.latest.error), [LatestNumber]), cached)
    else
      var first := [LatestNumber, Timestamp(c.latest.value)];
      if c.latestStamp.Err? then (Reply(Err(c.latestStamp.error), first), cached)
      else
        var s := Search(c.stamps, c.latest.value, StartOffset(c), 0);
        var requests := first + Stamps(s.0);
        if s.1.Err? then (Reply(Err(s.1.error), requests), cached)
        else
          SearchRequests(c.stamps, c.latest.value, StartOffset(c), 0);
          var blockTime := Estimate(c.latestStamp.value, s.1.value.stamp, s.1.value.offset);
          (Reply(Ok(blockTime), requests), blockTime)
  }

  class GethClient {
    var cachedBlockTime: int

    constructor ()
      ensures cachedBlockTime == 0
    {
      cachedBlockTime := 0;
    }

    method FetchBlockTime(c: Call) returns (reply: Reply)
      requires SaneCall(c)
      modifies this
      ensures (reply, cachedBlockTime) == Fetch(old(cachedBlockTime), c)
    {
      var retryOffset := c.offset;
      if cachedBlockTime > 0 && !c.refresh {
        return Reply(Ok(cachedBlockTime), []);
      }
      var requests := [LatestNumber];
      if c.latest.Err? {
        return Reply(Err(c.latest.error), requests);
      }
      var latest := c.latest.value;
      requests := requests + [Timestamp(latest)];
      assert requests == [LatestNumber, Timestamp(latest)];
      if c.latestStamp.Err? {
        return Reply(Err(c.latestStamp.error), requests);
      }
      if retryOffset > latest / 2 {
        retryOffset := latest / 2;
      }
      SearchRequests(c.stamps, latest, retryOffset, 0);
      var asked, found := FindEarlier(c.stamps, latest, retryOffset);
      if found.Err? {
        return Reply(Err(found.error), requests + Stamps(asked));
      }
      var blockTime := (c.latestStamp.value - found.value.stamp) as real / found.value.offset as real;
      cachedBlockTime := Round(blockTime);
      return Reply(Ok(cachedBlockTime), requests + Stamps(asked));
    }
  }

  // The search loop of a call.
  method FindEarlier(stamps: (nat, int) -> Result<int, FetchError>, latest: int, offset: int)
    returns (asked: seq<int>, found: Result<Found, FetchError>)
    requires offset >= 1
    ensures (asked, found) == Search(stamps, latest, offset, 0)
  {
    var retryOffset, k := offset, 0;
    asked := [];
    assert asked + Search(stamps, latest, offset, 0).0 == Search(stamps, latest, offset, 0).0;
    while retryOffset >= 1
      invariant retryOffset >= 1
      invariant var rest := Search(stamps, latest, retryOffset, k);
                Search(stamps, latest, offset, 0) == (asked + rest.0, rest.1)
      decreases retryOffset
    {
      var block := latest - retryOffset;
      var answer := stamps(k, block);
      ghost var before := asked;
      k, asked := k + 1, asked + [block];
      if answer.Ok? {
        return asked, Ok(Found(retryOffset, answer.value));
      }
      if answer.error != EmptyTimestamp || retryOffset == 1 {
        return asked, Err(answer.error);
      }
      // the larger of 1 and half the offset, cut to an integer
      var half := retryOffset as real / 2.0;
      ghost var next := Halved(retryOffset);
      retryOffset := (if half > 1.0 then half else 1.0).Floor;
      assert retryOffset == next;
      ghost var rest := Search(stamps, latest, retryOffset, k);
      assert before + ([block] + rest.0) == asked + rest.0;
    }
  }

  //// Any history of calls

  // The replies of a client whose cache holds `cached`, and its cache at the end.
  function Replay(cached: int, calls: seq<Call>): (seq<Reply>, int)
    requires forall i :: 0 <= i < |calls| ==> SaneCall(calls[i])
    decreases |calls|
  {
    if calls == [] then ([], cached)
    else
      var before := Replay(cached, calls[..|calls| - 1]);
      var last := Fetch(before.1, calls[|calls| - 1]);
      (before.0 + [last.0], last.1)
  }

  // The value of the last reply that was computed from requests.
  function LastComputed(replies: seq<Reply>, initial: int): int {
    if replies == [] then initial
    else
      var last := replies[|replies| - 1];
      if last.requests != [] && last.result.Ok? then last.result.value
      else LastComputed(replies[..|replies| - 1], initial)
  }

  lemma {:induction false} CacheHoldsLastComputed(cached: int, calls: seq<Call>)
    requires forall i :: 0 <= i < |calls| ==> SaneCall(calls[i])
    ensures |Replay(cached, calls).0| == |calls|
    ensures Replay(cached, calls).1 == LastComputed(Replay(cached, calls).0, cached)
    decreases |calls|
  {
    if calls != [] {
      var front := calls[..|calls| - 1];
      CacheHoldsLastComputed(cached, front);
      var replies := Replay(cached, calls).0;
      assert replies[..|replies| - 1] == Replay(cached, front).0;
    }
  }

  lemma {:induction false} ReplayPrefix(cached: int, calls: seq<Call>, i: nat)
    requires forall k :: 0 <= k < |calls| ==> SaneCall(calls[k])
    requires i <= |calls|
    ensures |Replay(cached, calls).0| == |calls|
    ensures Replay(cached, calls).0[..i] == Replay(cached, calls[..i]).0
    decreases |calls|
  {
    var replies := Replay(cached, calls).0;
    CacheHoldsLastComputed(cached, calls);
    if i == |calls| {
      assert calls[..i] == calls && replies[..i] == replies;
    } else {
      var front := calls[..|calls| - 1];
      ReplayPrefix(cached, front, i);
      CacheHoldsLastComputed(cached, front);
      assert front[..i] == calls[..i];
      assert replies[..i] == Replay(cached, front).0[..i];
    }
  }

  // In any history, a call that does not ask for a refresh repeats the last computed value without
  // a single request whenever that value is positive, and otherwise goes to the node.
  lemma CachedCallRepeats(cached: int, calls: seq<Call>, i: nat)
    requires forall k :: 0 <= k < |calls| ==> SaneCall(calls[k])
    requires i < |calls| && !calls[i].refresh
    ensures |Replay(cached, calls).0| == |calls|
    ensures var replies := Replay(cached, calls).0;
            var last := LastComputed(replies[..i], cached);
            && (last > 0 ==> replies[i] == Reply(Ok(last), []))
            && (last <= 0 ==> replies[i].requests != [])
  {
    ReplayPrefix(cached, calls, i);
    ReplayPrefix(cached, calls, i + 1);
    CacheHoldsLastComputed(cached, calls[..i]);
    CacheHoldsLastComputed(cached, calls[..i + 1]);
    var upTo := calls[..i + 1];
    assert upTo[..|upTo| - 1] == calls[..i];
    var replies := Replay(cached, calls).0;
    assert replies[..i + 1][i] == replies[i];
  }

  // A node that tells the truth about a chain with the given block times.
  ghost predicate Truthful(c: Call, time: int -> int) {
    && (c.latest.Ok? && c.latestStamp.Ok? ==> c.latestStamp.value == time(c.latest.value))
    && (forall k: nat, b :: c.stamps(k, b).Ok? ==> c.stamps(k, b).value == time(b))
  }

  lemma {:induction false} SearchTruthful(stamps: (nat, int) -> Result<int, FetchError>, latest: int,
                                          offset: int, k: nat, time: int -> int)
    requires offset >= 1
    requires forall i: nat, b :: stamps(i, b).Ok? ==> stamps(i, b).value == time(b)
    ensures var r := Search(stamps, latest, offset, k).1;
            r.Ok? ==> r.value.stamp == time(latest - r.value.offset)
    decreases offset
  {
    var block := latest - offset;
    if stamps(k, block) == Err(EmptyTimestamp) && offset > 1 {
      SearchTruthful(stamps, latest, Halved(offset), k + 1, time);
    } else {
      assert stamps(k, block).Ok? ==> stamps(k, block).value == time(block);
    }
  }

  // Over any history on a chain whose blocks took between lo >= 1 and hi seconds, every value
  // handed out lies in between; in particular it can be divided by.
  lemma {:induction false} EveryReplyWithinGaps(calls: seq<Call>, time: int -> int, lo: int, hi: int)
    requires forall i :: 0 <= i < |calls| ==> SaneCall(calls[i]) && Truthful(calls[i], time)
    requires forall b :: 0 <= b ==> lo <= Gap(time, b) <= hi
    requires lo >= 1
    ensures Replay(0, calls).1 == 0 || lo <= Replay(0, calls).1 <= hi
    ensures forall i :: 0 <= i < |Replay(0, calls).0| && Replay(0, calls).0[i].result.Ok? ==>
              lo <= Replay(0, calls).0[i].result.value <= hi
    decreases |calls|
  {
    if calls != [] {
      var front := calls[..|calls| - 1];
      EveryReplyWithinGaps(front, time, lo, hi);
      FetchWithinGaps(Replay(0, front).1, calls[|calls| - 1], time, lo, hi);
    }
  }

  lemma FetchWithinGaps(cached: int, c: Call, time: int -> int, lo: int, hi: int)
    requires SaneCall(c) && Truthful(c, time) && lo >= 1
    requires forall b :: 0 <= b ==> lo <= Gap(time, b) <= hi
    requires cached == 0 || lo <= cached <= hi
    ensures var r := Fetch(cached, c);
            && (r.0.result.Ok? ==> lo <= r.0.result.value <= hi)
            && (r.1 == cached || lo <= r.1 <= hi)
  {
    if !(cached > 0 && !c.refresh) && c.latest.Ok? && c.latestStamp.Ok? {
      var latest := c.latest.value;
      var s := Search(c.stamps, latest, StartOffset(c), 0).1;
      SearchRequests(c.stamps, latest, StartOffset(c), 0);
      SearchTruthful(c.stamps, latest, StartOffset(c), 0, time);
      if s.Ok? {
        EstimateWithinGaps(time, latest, s.value.offset, lo, hi);
      }
    }
  }

  // No call asks for a block below half the chain, in particular for no negative one, and a call
  // makes at most two requests more than the search may.
  lemma RequestsOfCall(cached: int, c: Call)
    requires SaneCall(c)
    ensures var requests := Fetch(cached, c).0.requests;
            && |requests| <= 3 + FloorLog2(c.offset)
            && (forall i :: 0 <= i < |requests| && requests[i].Timestamp? ==>
                  c.latest.Ok? && c.latest.value <= 2 * requests[i].block <= 2 * c.latest.value)
  {
    if c.latest.Ok? {
      var o := StartOffset(c);
      SearchRequests(c.stamps, c.latest.value, o, 0);
      FloorLog2Monotone(o, c.offset);
    }
  }

  // A call that goes to the node asks for the latest block first and then for the block the given
  // offset earlier, or the one in the middle of a shorter chain. The first failing answer is its error.
  lemma AnswersDecide(cached: int, c: Call)
    requires SaneCall(c) && !(cached > 0 && !c.refresh)
    ensures var (reply, after) := Fetch(cached, c);
            && |reply.requests| >= 1 && reply.requests[0] == LatestNumber
            && (c.latest.Err? ==> reply == Reply(Err(c.latest.error), [LatestNumber]))
            && (c.latest.Ok? ==> |reply.requests| >= 2 && reply.requests[1] == Timestamp(c.latest.value))
            && (c.latest.Ok? && c.latestStamp.Err? ==>
                  |reply.requests| == 2 && reply.result == Err(c.latestStamp.error))
            && (c.latest.Ok? && c.latestStamp.Ok? ==>
                  |reply.requests| >= 3
                  && reply.requests[2] == Timestamp(if 2 * c.offset <= c.latest.value then c.latest.value - c.offset
                                                    else c.latest.value - c.latest.value / 2))
            && (reply.result.Err? ==> after == cached)
  {
    if c.latest.Ok? && c.latestStamp.Ok? {
      SearchRequests(c.stamps, c.latest.value, StartOffset(c), 0);
    }
  }

  // On a truthful chain the value is the average time of the blocks up to the last one asked for.
  lemma ComputedReply(cached: int, c: Call, time: int -> int)
    requires SaneCall(c) && Truthful(c, time) && !(cached > 0 && !c.refresh)
    requires Fetch(cached, c).0.result.Ok?
    ensures c.latest.Ok? && |Fetch(cached, c).0.requests| >= 3
    ensures var r := Fetch(cached, c).0;
            var last := r.requests[|r.requests| - 1];
            && last.Timestamp? && last.block < c.latest.value
            && r.result.value == Estimate(time(c.latest.value), time(last.block), c.latest.value - last.block)
  {
    var latest := c.latest.value;
    SearchRequests(c.stamps, latest, StartOffset(c), 0);
    SearchTruthful(c.stamps, latest, StartOffset(c), 0, time);
  }

  lemma {:induction false} FloorLog2Monotone(m: nat, n: nat)
    requires 0 < m <= n
    ensures FloorLog2(m) <= FloorLog2(n)
    decreases n
  {
    if m > 1 {
      FloorLog2Monotone(m / 2, n / 2);
    }
  }
}
