/**
 The random generator with optional uniqueness (pkg/random/random.go) and the provider that turns
 its numbers into neighbourhood arguments (pkg/nuker/neighborhood.go). The random source is an
 arbitrary list of draws; a call whose draws run out is still in its search loop.
 */
module UniqueRandom {
  import opened Wrappers
  import opened Powers
  import opened Arithmetic
  import opened FiniteSets
  import Int64

  datatype Outcome = Value(v: int) | Exhausted | InvalidRange | StillSearching

  function Abs(x: int): (r: int)
    ensures r >= 0 && (r == x || r == -x)
  {
    if x < 0 then -x else x
  }

  function Low(a: int, b: int): int {
    if Abs(a) <= Abs(b) then Abs(a) else Abs(b)
  }

  function High(a: int, b: int): int {
    if Abs(a) <= Abs(b) then Abs(b) else Abs(a)
  }

  function Span(a: int, b: int): int {
    Int64.Wrap(High(a, b) - Low(a, b) + 1)
  }

  function Interval(lo: int, n: nat): (s: set<int>)
    ensures forall x :: x in s <==> lo <= x < lo + n
    ensures |s| == n
  {
    if n == 0 then {} else Interval(lo, n - 1) + {lo + n - 1}
  }

  function Range(a: int, b: int): set<int> {
    Interval(Low(a, b), High(a, b) - Low(a, b) + 1)
  }

  // An argument whose absolute value exists in the word.
  predicate SaneArg(x: int) {
    Int64.MIN < x <= Int64.MAX
  }

  //// Counting

  lemma RangeSize(a: int, b: int)
    requires SaneArg(a) && SaneArg(b) && Span(a, b) > 0
    ensures |Range(a, b)| == Span(a, b)
  {
  }

  predicate IsFirstDraw(c: Call, v: int) {
    Span(c.minVal, c.maxVal) > 0 && c.draws != []
    && v == Low(c.minVal, c.maxVal) + Intn(c.draws[0], Span(c.minVal, c.maxVal))
  }

  lemma OffsetInRange(c: Call, offset: int)
    requires SaneCall(c) && 0 <= offset < Span(c.minVal, c.maxVal)
    ensures Low(c.minVal, c.maxVal) + offset in Range(c.minVal, c.maxVal)
  {
  }

  // Pigeonhole: whenever the search loop is entered there is a number to be found.
  lemma UnusedExists(used: set<int>, a: int, b: int)
    requires SaneArg(a) && SaneArg(b) && Span(a, b) > 0
    requires |used| < Span(a, b)
    ensures exists x :: x in Range(a, b) && x !in used
  {
    RangeSize(a, b);
    if Range(a, b) <= used {
      SubsetSize(Range(a, b), used);
    }
  }

  //// One call

  // What Intn makes of a raw draw.
  function Intn(raw: nat, span: int): (r: int)
    requires span > 0
    ensures 0 <= r < span && (raw < span ==> r == raw)
  {
    raw % span
  }

  // The first draw that is not used yet.
  function FirstFresh(used: set<int>, lo: int, span: int, draws: seq<nat>): Outcome
    requires span > 0
  {
    if draws == [] then StillSearching
    else if lo + Intn(draws[0], span) !in used then Value(lo + Intn(draws[0], span))
    else FirstFresh(used, lo, span, draws[1..])
  }

  datatype Call = Call(minVal: int, maxVal: int, draws: seq<nat>)

  predicate SaneCall(c: Call) {
    SaneArg(c.minVal) && SaneArg(c.maxVal)
  }

  // The outcome of a call of a unique generator.
  function Answer(used: set<int>, c: Call): Outcome {
    var span := Span(c.minVal, c.maxVal);
    if span <= 0 then InvalidRange
    else if |used| >= span then Exhausted
    else FirstFresh(used, Low(c.minVal, c.maxVal), span, c.draws)
  }

  function UsedAfter(used: set<int>, o: Outcome): set<int> {
    if o.Value? then used + {o.v} else used
  }

  // A raw draw that gives a number not used yet.
  predicate Unused(used: set<int>, lo: int, span: int, draw: nat)
    requires span > 0
  {
    lo + Intn(draw, span) !in used
  }

  lemma {:induction false} FreshInRange(used: set<int>, lo: int, span: int, draws: seq<nat>)
    requires span > 0
    ensures var o := FirstFresh(used, lo, span, draws);
            && (o.Value? ==> lo <= o.v < lo + span && o.v !in used)
            && (o.Value? || o == StillSearching)
            && (o.Value? <==> exists k :: 0 <= k < |draws| && Unused(used, lo, span, draws[k]))
  {
    if draws != [] {
      FreshInRange(used, lo, span, draws[1..]);
      if !Unused(used, lo, span, draws[0]) {
        if k :| 0 <= k < |draws| && Unused(used, lo, span, draws[k]) {
          assert Unused(used, lo, span, draws[1..][k - 1]);
        }
      }
    }
  }

  // It is the first such draw that is taken.
  lemma {:induction false} FirstUnusedDraw(used: set<int>, lo: int, span: int, draws: seq<nat>, k: nat)
    requires span > 0 && k < |draws| && Unused(used, lo, span, draws[k])
    requires forall j :: 0 <= j < k ==> !Unused(used, lo, span, draws[j])
    ensures FirstFresh(used, lo, span, draws) == Value(lo + Intn(draws[k], span))
  {
    if k > 0 {
      assert !Unused(used, lo, span, draws[0]);
      FirstUnusedDraw(used, lo, span, draws[1..], k - 1);
    }
  }

  // The range reaches from the smaller to the larger absolute value, both included.
  lemma RangeMeaning(a: int, b: int, x: int)
    ensures var i, j := if a < 0 then -a else a, if b < 0 then -b else b;
            x in Range(a, b) <==> i <= x <= j || j <= x <= i
  {
  }

  // Every unused number of the range can be the next one.
  lemma AnyUnusedPossible(used: set<int>, a: int, b: int, x: int)
    requires SaneArg(a) && SaneArg(b) && 0 < Span(a, b) && |used| < Span(a, b)
    requires x in Range(a, b) && x !in used
    ensures exists draw: nat :: Answer(used, Call(a, b, [draw])) == Value(x)
  {
    var draw := x - Low(a, b);
    FirstUnusedDraw(used, Low(a, b), Span(a, b), [draw], 0);
    assert Answer(used, Call(a, b, [draw])) == Value(x);
  }

  // A value is in the range and new; a search can only go on if every draw so far was used.
  lemma AnswerLaws(used: set<int>, c: Call)
    requires SaneCall(c)
    ensures var o := Answer(used, c);
            && (o.Value? ==> o.v in Range(c.minVal, c.maxVal) && o.v !in used)
            && (o == InvalidRange <==> High(c.minVal, c.maxVal) - Low(c.minVal, c.maxVal) == Int64.MAX)
            && (o == StillSearching ==> exists x :: x in Range(c.minVal, c.maxVal) && x !in used)
  {
    var span := Span(c.minVal, c.maxVal);
    if span > 0 {
      FreshInRange(used, Low(c.minVal, c.maxVal), span, c.draws);
      if |used| < span {
        UnusedExists(used, c.minVal, c.maxVal);
      }
    }
  }

  class Generator {
    const unique: bool
    var used: set<int>

    constructor (unique: bool)
      ensures this.unique == unique && used == {}
    {
      this.unique := unique;
      used := {};
    }

    method GetRandom(c: Call) returns (o: Outcome)
      requires SaneCall(c)
      modifies this
      ensures o == InvalidRange <==> Span(c.minVal, c.maxVal) <= 0
      ensures unique ==> o == Answer(old(used), c) && used == UsedAfter(old(used), o)
      ensures !unique ==> used == old(used) && !o.Exhausted?
                          && (o.Value? ==> o.v in Range(c.minVal, c.maxVal) && IsFirstDraw(c, o.v))
                          && (o.StillSearching? ==> c.draws == [])
    {
      var lo, hi := Abs(c.minVal), Abs(c.maxVal);
      if lo > hi {
        lo, hi := hi, lo;
      }
      assert lo == Low(c.minVal, c.maxVal) && hi == High(c.minVal, c.maxVal);
      var span := Int64.Wrap(hi - lo + 1);
      if span <= 0 {
        return InvalidRange;
      }
      if !unique {
        if c.draws == [] {
          return StillSearching;
        }
        var offset := Intn(c.draws[0], span);
        OffsetInRange(c, offset);
        return Value(lo + offset);
      }
      if |used| >= span {
        return Exhausted;
      }
      o := Search(lo, span, c.draws);
    }

    // The search loop.
    method Search(lo: int, span: int, draws: seq<nat>) returns (o: Outcome)
      requires span > 0
      modifies this
      ensures o.Value? || o == StillSearching
      ensures o == FirstFresh(old(used), lo, span, draws) && used == UsedAfter(old(used), o)
    {
      for k := 0 to |draws|
        invariant used == old(used)
        invariant FirstFresh(used, lo, span, draws) == FirstFresh(used, lo, span, draws[k..])
      {
        assert draws[k..][1..] == draws[k + 1..];
        var code := lo + Intn(draws[k], span);
        if code !in used {
          used := used + {code};
          return Value(code);
        }
      }
      return StillSearching;
    }

    method Reset()
      modifies this
      ensures used == {}
    {
      used := {};
    }
  }

  //// Any history between two resets

  // The numbers used by the first k calls.
  function UsedBy(calls: seq<Call>, k: nat): set<int>
    requires k <= |calls|
    decreases k, 0
  {
    if k == 0 then {} else UsedAfter(UsedBy(calls, k - 1), OutcomeAt(calls, k - 1))
  }

  // The outcome of call k.
  function OutcomeAt(calls: seq<Call>, k: nat): Outcome
    requires k < |calls|
    decreases k, 1
  {
    Answer(UsedBy(calls, k), calls[k])
  }

  lemma {:induction false} UsedGrows(calls: seq<Call>, i: nat, j: nat)
    requires i <= j <= |calls|
    ensures UsedBy(calls, i) <= UsedBy(calls, j)
    decreases j
  {
    if i < j {
      UsedGrows(calls, i, j - 1);
    }
  }

  // Whatever ranges the calls ask for, no number is handed out twice.
  lemma ValuesDistinct(calls: seq<Call>, i: nat, j: nat)
    requires i < j < |calls| && forall k :: 0 <= k < |calls| ==> SaneCall(calls[k])
    requires OutcomeAt(calls, i).Value? && OutcomeAt(calls, j).Value?
    ensures OutcomeAt(calls, i).v != OutcomeAt(calls, j).v
    ensures OutcomeAt(calls, j).v in Range(calls[j].minVal, calls[j].maxVal)
  {
    GivenIsUsed(calls, i);
    UsedGrows(calls, i + 1, j);
    NewAnswer(UsedBy(calls, j), calls[j], OutcomeAt(calls, j));
  }

  lemma GivenIsUsed(calls: seq<Call>, i: nat)
    requires i < |calls| && OutcomeAt(calls, i).Value?
    ensures OutcomeAt(calls, i).v in UsedBy(calls, i + 1)
  {
  }

  lemma NewAnswer(used: set<int>, c: Call, o: Outcome)
    requires SaneCall(c) && o == Answer(used, c) && o.Value?
    ensures o.v in Range(c.minVal, c.maxVal) && o.v !in used
  {
    AnswerLaws(used, c);
  }

  // All calls ask for the same range and none is left searching.
  ghost predicate FixedRange(calls: seq<Call>, a: int, b: int) {
    && SaneArg(a) && SaneArg(b) && Span(a, b) > 0
    && (forall k :: 0 <= k < |calls| ==> calls[k].minVal == a && calls[k].maxVal == b)
    && (forall k: nat :: k < |calls| ==> Decided(calls, k))
  }

  ghost predicate Decided(calls: seq<Call>, k: nat)
    requires k < |calls|
  {
    OutcomeAt(calls, k) != StillSearching
  }

  // n calls have used n numbers of the range, or all of them.
  ghost predicate Counted(used: set<int>, n: nat, range: set<int>, span: int) {
    used <= range && |used| == if n <= span then n else span
  }

  lemma {:induction false} FixedRangeCount(calls: seq<Call>, a: int, b: int, k: nat)
    requires FixedRange(calls, a, b) && k <= |calls|
    ensures Counted(UsedBy(calls, k), k, Range(a, b), Span(a, b))
  {
    if k == 0 {
      EmptyCounted(a, b);
    } else {
      FixedRangeCount(calls, a, b, k - 1);
      assert Decided(calls, k - 1);
      StepCounted(UsedBy(calls, k - 1), calls[k - 1], OutcomeAt(calls, k - 1), k);
    }
  }

  lemma EmptyCounted(a: int, b: int)
    requires Span(a, b) > 0
    ensures Counted({}, 0, Range(a, b), Span(a, b))
  {
  }

  lemma StepCounted(used: set<int>, c: Call, o: Outcome, n: nat)
    requires SaneCall(c) && Span(c.minVal, c.maxVal) > 0 && n > 0
    requires o == Answer(used, c) && o != StillSearching
    requires Counted(used, n - 1, Range(c.minVal, c.maxVal), Span(c.minVal, c.maxVal))
    ensures Counted(UsedAfter(used, o), n, Range(c.minVal, c.maxVal), Span(c.minVal, c.maxVal))
  {
    AnswerLaws(used, c);
    FreshOrExhausted(used, c);
  }

  lemma FreshOrExhausted(used: set<int>, c: Call)
    requires SaneCall(c) && Span(c.minVal, c.maxVal) > 0
    ensures Answer(used, c) == Exhausted <==> |used| >= Span(c.minVal, c.maxVal)
    ensures Answer(used, c).Exhausted? || Answer(used, c).Value? || Answer(used, c) == StillSearching
  {
    FreshInRange(used, Low(c.minVal, c.maxVal), Span(c.minVal, c.maxVal), c.draws);
  }

  // On one range a fresh generator hands out every number of it exactly once and then, and only
  // then, reports exhaustion.
  lemma ExactlySpanSuccesses(calls: seq<Call>, a: int, b: int, k: nat)
    requires FixedRange(calls, a, b) && k < |calls|
    ensures OutcomeAt(calls, k).Value? <==> k < Span(a, b)
    ensures OutcomeAt(calls, k) == Exhausted <==> k >= Span(a, b)
    ensures |calls| >= Span(a, b) ==> UsedBy(calls, |calls|) == Range(a, b)
  {
    assert Decided(calls, k);
    FixedRangeCount(calls, a, b, k);
    FreshOrExhausted(UsedBy(calls, k), calls[k]);
    FixedRangeCount(calls, a, b, |calls|);
    if |calls| >= Span(a, b) {
      RangeSize(a, b);
      SubsetSize(UsedBy(calls, |calls|), Range(a, b));
    }
  }

  //// When exhaustion is true

  // A range with no number left is always reported. The report is true exactly when at most
  // |used| - span of the used numbers lie outside the range, so always when all lie inside.
  lemma ExhaustionTruthful(used: set<int>, c: Call)
    requires SaneCall(c) && Span(c.minVal, c.maxVal) > 0
    ensures var range := Range(c.minVal, c.maxVal);
            && (range <= used ==> Answer(used, c) == Exhausted)
            && (Answer(used, c) == Exhausted ==>
                  (range <= used <==> |used - range| <= |used| - Span(c.minVal, c.maxVal)))
            && (used <= range && Answer(used, c) == Exhausted ==> range <= used)
  {
    var range := Range(c.minVal, c.maxVal);
    RangeSize(c.minVal, c.maxVal);
    FreshOrExhausted(used, c);
    if range <= used {
      SubsetSize(range, used);
    }
    assert used == (used - range) + (used * range);
    assert |used| == |used - range| + |used * range|;
    SubsetSize(used * range, range);
    assert used * range == range <==> range <= used;
    if used <= range {
      assert used - range == {};
    }
  }

  // The range of c lies inside that of d.
  predicate Inside(c: Call, d: Call) {
    Low(d.minVal, d.maxVal) <= Low(c.minVal, c.maxVal) && High(c.minVal, c.maxVal) <= High(d.minVal, d.maxVal)
  }

  lemma {:induction false} UsedInside(calls: seq<Call>, k: nat, d: Call)
    requires k <= |calls| && forall j :: 0 <= j < k ==> SaneCall(calls[j]) && Inside(calls[j], d)
    ensures UsedBy(calls, k) <= Range(d.minVal, d.maxVal)
  {
    if k > 0 {
      UsedInside(calls, k - 1, d);
      AnswerLaws(UsedBy(calls, k - 1), calls[k - 1]);
    }
  }

  // As long as ranges only grow the report is exact: it comes when every number of the range has
  // been handed out, and not before.
  lemma ExhaustedWhenRangesGrow(calls: seq<Call>, k: nat)
    requires k < |calls| && forall j :: 0 <= j <= k ==> SaneCall(calls[j])
    requires Span(calls[k].minVal, calls[k].maxVal) > 0
    requires forall j :: 0 <= j < k ==> Inside(calls[j], calls[k])
    ensures OutcomeAt(calls, k) == Exhausted <==> UsedBy(calls, k) == Range(calls[k].minVal, calls[k].maxVal)
  {
    UsedInside(calls, k, calls[k]);
    ExhaustionTruthful(UsedBy(calls, k), calls[k]);
  }

  // Numbers used in another range count against this one: exhaustion is reported although none of
  // its numbers was handed out.
  lemma ExhaustionSpurious(draws: seq<nat>)
    ensures var calls := [Call(10, 11, [0, 1]), Call(10, 11, [0, 1]), Call(0, 1, draws)];
            && OutcomeAt(calls, 2) == Exhausted
            && forall x :: x in Range(0, 1) ==> x !in UsedBy(calls, 2)
  {
    var calls := [Call(10, 11, [0, 1]), Call(10, 11, [0, 1]), Call(0, 1, draws)];
    assert Answer({}, calls[0]) == Value(10);
    assert UsedBy(calls, 1) == {10};
    assert [0, 1][1..] == [1];
    assert Answer({10}, calls[1]) == Value(11);
    assert UsedBy(calls, 2) == {10, 11};
    assert |{10, 11}| == 2;
  }

  //// Neighbourhood arguments

  // A number in binary, as %b prints it.
  function Binary(v: nat): (s: string)
    ensures s != []
  {
    var digit := if v % 2 == 1 then "1" else "0";
    if v < 2 then digit else Binary(v / 2) + digit
  }

  function ParseBinary(s: string): nat {
    if s == [] then 0 else 2 * ParseBinary(s[..|s| - 1]) + (if s[|s| - 1] == '1' then 1 else 0)
  }

  lemma {:induction false} BinaryRoundTrip(v: nat)
    ensures ParseBinary(Binary(v)) == v
  {
    var s := Binary(v);
    if v < 2 {
      assert s[..|s| - 1] == [];
    } else {
      BinaryRoundTrip(v / 2);
      assert s[..|s| - 1] == Binary(v / 2);
    }
  }

  function Argument(v: nat): string {
    "--target-neighborhood=" + Binary(v)
  }

  lemma ArgumentInjective(v: nat, w: nat)
    requires Argument(v) == Argument(w)
    ensures v == w
  {
    var n := |"--target-neighborhood="|;
    assert Argument(v)[n..] == Binary(v) && Argument(w)[n..] == Binary(w);
    BinaryRoundTrip(v);
    BinaryRoundTrip(w);
  }

  datatype ArgsError = NodeNotFound | StatusFailed | RangeFailed

  datatype Granted = Plain | Drawn(v: int) | Drawing

  // The call for a node with a storage radius.
  function NodeCall(radius: nat, draws: seq<nat>): Call {
    Call(0, Pow2(radius) - 1, draws)
  }

  // The neighbourhoods of a radius.
  function Prefixes(radius: nat): set<int> {
    Interval(0, Pow2(radius))
  }

  // `radius` is the storage radius a known node reports. The result is the argument list, and what
  // the generator contributed to it.
  method GetArgs(g: Generator, useRandom: bool, known: bool, radius: Option<nat>,
                 restartArgs: seq<string>, draws: seq<nat>)
    returns (r: Result<seq<string>, ArgsError>, granted: Granted)
    requires g.unique && (radius.Some? ==> radius.value <= 62)
    modifies g
    ensures r.Err? <==> useRandom && (!known || radius.None?)
    ensures !granted.Drawn? ==> g.used == old(g.used)
    ensures granted.Plain? && r.Ok? ==> r.value == restartArgs
    ensures granted.Drawn? ==> r.Ok? && 0 <= granted.v && radius.Some? && granted.v < Pow2(radius.value)
                               && granted.v !in old(g.used) && g.used == old(g.used) + {granted.v}
                               && r.value == restartArgs + ["--target-neighborhood=" + Binary(granted.v)]
    // a plain list for a node with a radius means that as many numbers are used as it has
    // neighbourhoods, and that these are all of them if the others had no larger radius
    ensures r.Ok? && useRandom && radius.value > 0 && granted.Plain? ==>
              && |old(g.used)| >= Pow2(radius.value)
              && (old(g.used) <= Prefixes(radius.value) ==> old(g.used) == Prefixes(radius.value))
  {
    granted := Plain;
    if !useRandom {
      return Ok(restartArgs), granted;
    }
    if !known {
      return Err(NodeNotFound), granted;
    }
    if radius.None? {
      return Err(StatusFailed), granted;
    }
    if radius.value == 0 {
      return Ok(restartArgs), granted;
    }
    Pow2UpTo62(radius.value);
    var c := NodeCall(radius.value, draws);
    AnswerLaws(g.used, c);
    FreshOrExhausted(g.used, c);
    ExhaustionTruthful(g.used, c);
    var o := g.GetRandom(c);
    match o {
      case Exhausted => return Ok(restartArgs), granted;
      case InvalidRange => return Err(RangeFailed), granted;
      case StillSearching => return Ok(restartArgs), Drawing;
      case Value(v) => return Ok(restartArgs + [Argument(v)]), Drawn(v);
    }
  }

  // The calls for a list of nodes; a node with radius zero draws nothing.
  function NodeCalls(radii: seq<nat>, draws: seq<seq<nat>>): seq<Call>
    requires |radii| == |draws|
  {
    if radii == [] then []
    else
      var n := |radii| - 1;
      NodeCalls(radii[..n], draws[..n]) + (if radii[n] == 0 then [] else [NodeCall(radii[n], draws[n])])
  }

  // Every call is sane and asks for a range inside that of d.
  ghost predicate AllInside(calls: seq<Call>, d: Call) {
    forall c :: c in calls ==> SaneCall(c) && Inside(c, d)
  }

  lemma {:induction false} NodeCallsWithin(radii: seq<nat>, draws: seq<seq<nat>>, radius: nat, own: seq<nat>)
    requires |radii| == |draws| && radius <= 62
    requires forall j :: 0 <= j < |radii| ==> radii[j] <= radius
    ensures AllInside(NodeCalls(radii, draws), NodeCall(radius, own))
    decreases |radii|
  {
    if radii != [] {
      var n := |radii| - 1;
      NodeCallsWithin(radii[..n], draws[..n], radius, own);
      NodeCallsNested(radii[n], radius, draws[n], own);
    }
  }

  // A node whose radius is not below that of an earlier node is left without a neighbourhood exactly
  // when all neighbourhoods of its radius were given away.
  lemma ExhaustedWhenRadiiGrow(radii: seq<nat>, draws: seq<seq<nat>>, radius: nat, own: seq<nat>)
    requires |radii| == |draws| && 1 <= radius <= 62
    requires forall j :: 0 <= j < |radii| ==> radii[j] <= radius
    ensures var earlier := NodeCalls(radii, draws);
            var calls := earlier + [NodeCall(radius, own)];
            OutcomeAt(calls, |earlier|) == Exhausted <==> UsedBy(calls, |earlier|) == Prefixes(radius)
  {
    var earlier := NodeCalls(radii, draws);
    NodeCallsWithin(radii, draws, radius, own);
    NodeCallsNested(radius, radius, own, own);
    NodeCallRange(radius, own);
    ExhaustedAfter(earlier, NodeCall(radius, own));
  }

  lemma ExhaustedAfter(earlier: seq<Call>, c: Call)
    requires SaneCall(c) && Span(c.minVal, c.maxVal) > 0 && AllInside(earlier, c)
    ensures OutcomeAt(earlier + [c], |earlier|) == Exhausted <==>
            UsedBy(earlier + [c], |earlier|) == Range(c.minVal, c.maxVal)
  {
    var calls := earlier + [c];
    forall j | 0 <= j < |earlier|
      ensures SaneCall(calls[j]) && Inside(calls[j], c)
    {
      assert calls[j] in earlier;
    }
    ExhaustedWhenRangesGrow(calls, |earlier|);
  }

  lemma NodeCallsNested(r: nat, s: nat, d: seq<nat>, e: seq<nat>)
    requires r <= s <= 62
    ensures SaneCall(NodeCall(r, d)) && Inside(NodeCall(r, d), NodeCall(s, e))
  {
    Pow2UpTo62(r);
    Pow2UpTo62(s);
    Pow2Monotone(r, s);
  }

  lemma NodeCallRange(r: nat, d: seq<nat>)
    requires r <= 62
    ensures var c := NodeCall(r, d);
            Span(c.minVal, c.maxVal) > 0 && Range(c.minVal, c.maxVal) == Prefixes(r)
  {
    Pow2UpTo62(r);
  }

  // After nodes with a larger radius it can be left without one although all are free.
  lemma SmallerRadiusLeftOut(draws: seq<nat>)
    ensures var calls := NodeCalls([2, 2], [[2], [3]]) + [NodeCall(1, draws)];
            && |calls| == 3 && UsedBy(calls, 2) == {2, 3}
            && OutcomeAt(calls, 2) == Exhausted && Prefixes(1) == {0, 1}
  {
    var calls := NodeCalls([2, 2], [[2], [3]]) + [NodeCall(1, draws)];
    assert Pow2(1) == 2 && Pow2(2) == 4;
    TwoNodes([2, 2], [[2], [3]]);
    assert calls == [Call(0, 3, [2]), Call(0, 3, [3]), Call(0, 1, draws)];
    TwoLargerCalls(calls[0], calls[1], calls[2]);
    assert UsedBy(calls, 1) == UsedAfter({}, Answer({}, calls[0]));
    assert UsedBy(calls, 2) == UsedAfter({2}, Answer({2}, calls[1]));
  }

  lemma TwoNodes(radii: seq<nat>, draws: seq<seq<nat>>)
    requires |radii| == |draws| == 2 && radii[0] > 0 && radii[1] > 0
    ensures NodeCalls(radii, draws) == [NodeCall(radii[0], draws[0]), NodeCall(radii[1], draws[1])]
  {
    assert NodeCalls(radii[..1], draws[..1]) == [NodeCall(radii[0], draws[0])] by {
      assert radii[..1][..0] == [];
    }
  }

  lemma TwoLargerCalls(b: Call, c: Call, d: Call)
    requires b == Call(0, 3, [2]) && c == Call(0, 3, [3]) && d == Call(0, 1, d.draws)
    ensures Answer({}, b) == Value(2) && Answer({2}, c) == Value(3) && Answer({2, 3}, d) == Exhausted
  {
    assert |{2, 3}| == 2;
  }

  // No two nodes handled between resets get the same argument.
  lemma ArgumentsDistinct(calls: seq<Call>, i: nat, j: nat)
    requires i < j < |calls| && forall k :: 0 <= k < |calls| ==> SaneCall(calls[k])
    requires OutcomeAt(calls, i).Value? && OutcomeAt(calls, j).Value?
    ensures OutcomeAt(calls, i).v >= 0 && OutcomeAt(calls, j).v >= 0
    ensures Argument(OutcomeAt(calls, i).v) != Argument(OutcomeAt(calls, j).v)
  {
    ValuesDistinct(calls, i, j);
    AnswerLaws(UsedBy(calls, i), calls[i]);
    if Argument(OutcomeAt(calls, i).v) == Argument(OutcomeAt(calls, j).v) {
      ArgumentInjective(OutcomeAt(calls, i).v, OutcomeAt(calls, j).v);
    }
  }

  //// What an argument stands for

  // The printed digits have the width of the radius exactly when the first of them is not dropped.
  lemma {:induction false} BinaryWidth(v: nat, radius: nat)
    requires radius >= 1
    ensures |Binary(v)| == radius <==> v < Pow2(radius) && (radius == 1 || Pow2(radius - 1) <= v)
    decreases v
  {
    if v >= 2 && radius >= 2 {
      BinaryWidth(v / 2, radius - 1);
    } else if v >= 2 {
      assert Pow2(1) == 2 && |Binary(v / 2)| >= 1;
    } else if radius >= 2 {
      Pow2Monotone(1, radius - 1);
    }
  }

  // The number without its last k binary digits.
  function Halved(v: nat, k: nat): nat {
    if k == 0 then v else Halved(v / 2, k - 1)
  }

  lemma {:induction false} HalvedIsQuotient(v: nat, k: nat)
    ensures Halved(v, k) == v / Pow2(k)
    decreases k
  {
    if k == 0 {
      assert Pow2(0) == 1;
    } else {
      HalvedIsQuotient(v / 2, k - 1);
      HalfThenDivide(v, Pow2(k - 1));
    }
  }

  lemma {:induction false} BinaryFront(v: nat, k: nat)
    requires k < |Binary(v)|
    ensures Binary(v)[..|Binary(v)| - k] == Binary(Halved(v, k))
    decreases k
  {
    var s := Binary(v);
    if k == 0 {
      assert s[..|s|] == s;
    } else {
      assert s[..|s| - 1] == Binary(v / 2);
      BinaryFront(v / 2, k - 1);
      assert s[..|s| - k] == s[..|s| - 1][..|s| - k];
    }
  }

  lemma {:induction false} LongEnough(v: nat, k: nat)
    requires Halved(v, k) > 0
    ensures |Binary(v)| > k
    decreases k
  {
    if k > 0 {
      HalvedZero(k - 1);
      LongEnough(v / 2, k - 1);
    }
  }

  lemma {:induction false} HalvedZero(k: nat)
    ensures Halved(0, k) == 0
  {
    if k > 0 {
      HalvedZero(k - 1);
    }
  }

  // The neighbourhood of one argument lies inside that of another, its digits being a longer prefix,
  // exactly when dropping digits of its number gives the other number.
  lemma NeighbourhoodInside(v: nat, w: nat)
    ensures Binary(v) <= Binary(w) <==> v == w || (v > 0 && exists k: nat :: v == w / Pow2(k))
  {
    if Binary(v) <= Binary(w) {
      var k := |Binary(w)| - |Binary(v)|;
      PrefixMeansHalved(v, w, k);
      HalvedIsQuotient(w, k);
      LeadingZero(v);
      LeadingZero(w);
    }
    if k: nat :| v > 0 && v == w / Pow2(k) {
      HalvedIsQuotient(w, k);
      HalvedIsPrefix(w, k);
      assert Binary(v) <= Binary(w);
    }
  }

  lemma HalvedIsPrefix(w: nat, k: nat)
    requires Halved(w, k) > 0
    ensures Binary(Halved(w, k)) <= Binary(w)
  {
    LongEnough(w, k);
    BinaryFront(w, k);
  }

  lemma PrefixMeansHalved(v: nat, w: nat, k: nat)
    requires Binary(v) <= Binary(w) && |Binary(w)| == |Binary(v)| + k
    ensures v == Halved(w, k)
  {
    assert Binary(w)[..|Binary(v)|] == Binary(v);
    BinaryFront(w, k);
    BinaryRoundTrip(v);
    BinaryRoundTrip(Halved(w, k));
  }

  // Only zero is printed with a leading zero.
  lemma {:induction false} LeadingZero(w: nat)
    ensures Binary(w)[0] == '0' <==> w == 0
  {
    if w >= 2 {
      LeadingZero(w / 2);
    }
  }

  // Two nodes of one radius can so be sent to neighbourhoods one inside the other: 2 lies inside 1.
  lemma DistinctButNested()
    ensures var calls := NodeCalls([2, 2], [[1], [2]]);
            |calls| == 2 && OutcomeAt(calls, 0) == Value(1) && OutcomeAt(calls, 1) == Value(2)
    ensures Binary(1) <= Binary(2)
  {
    var calls := NodeCalls([2, 2], [[1], [2]]);
    assert Pow2(2) == 4;
    TwoNodes([2, 2], [[1], [2]]);
    assert calls == [Call(0, 3, [1]), Call(0, 3, [2])];
    TwoDraws(calls[0], calls[1]);
    assert UsedBy(calls, 1) == UsedAfter({}, Answer({}, calls[0]));
    assert Binary(2) == Binary(1) + "0";
  }

  lemma TwoDraws(b: Call, c: Call)
    requires b == Call(0, 3, [1]) && c == Call(0, 3, [2])
    ensures Answer({}, b) == Value(1) && Answer({1}, c) == Value(2)
  {
  }
}
