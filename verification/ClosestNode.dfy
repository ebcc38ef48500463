/**
 The node closest to a chunk by XOR distance (pkg/bee/chunk.go), and the light-node check that asks
 node after node for a replica, skipping those it has asked (pkg/check/pushsync/check_lightnode.go).
 */
module ClosestNode {
  import opened Wrappers
  import opened FiniteSets

  type Byte = bv8

  // An address is zero when it is empty.
  type Address = seq<Byte>

  //// Distance

  function Difference(a: Byte, x: Byte): (d: nat)
    ensures d < 256
  {
    (a ^ x) as nat
  }

  lemma DifferenceInjective(a: Byte, x: Byte, y: Byte)
    ensures Difference(a, x) == Difference(a, y) <==> x == y
  {
    assert (a ^ x) == (a ^ y) <==> x == y;
    BytesAsNumbers(a ^ x, a ^ y);
  }

  lemma BytesAsNumbers(x: Byte, y: Byte)
    ensures x as nat == y as nat <==> x == y
    ensures x as nat < y as nat <==> x < y
  {
  }

  type Digit = d: nat | d < 256

  // A big-endian number.
  function Number(digits: seq<Digit>): nat {
    if digits == [] then 0 else 256 * Number(digits[..|digits| - 1]) + digits[|digits| - 1]
  }

  // The first digit decides.
  lemma {:induction false} FirstDigitDecides(ds: seq<Digit>, es: seq<Digit>)
    requires |ds| == |es| > 0 && ds[0] < es[0]
    ensures Number(ds) < Number(es)
    decreases |ds|
  {
    if |ds| == 1 {
      assert ds[..0] == es[..0] == [];
    } else {
      FirstDigitDecides(ds[..|ds| - 1], es[..|es| - 1]);
    }
  }

  // If it is the same, the others do.
  lemma {:induction false} OtherDigitsDecide(ds: seq<Digit>, es: seq<Digit>)
    requires |ds| == |es| > 0 && ds[0] == es[0]
    ensures Number(ds) < Number(es) <==> Number(ds[1..]) < Number(es[1..])
    ensures Number(ds) == Number(es) <==> Number(ds[1..]) == Number(es[1..])
    decreases |ds|
  {
    if |ds| == 1 {
      assert ds == es;
    } else {
      var d, e := ds[..|ds| - 1], es[..|es| - 1];
      OtherDigitsDecide(d, e);
      assert ds[1..][..|ds| - 2] == d[1..] && es[1..][..|es| - 2] == e[1..];
    }
  }

  function Digits(a: Address, x: Address): (s: seq<Digit>)
    requires |a| == |x|
    ensures |s| == |a|
  {
    seq(|a|, i requires 0 <= i < |a| => Difference(a[i], x[i]))
  }

  // The XOR of two addresses read as a big-endian number.
  function Distance(a: Address, x: Address): nat
    requires |a| == |x|
  {
    Number(Digits(a, x))
  }

  // The comparison of the swarm library, byte by byte: 1 when x is the closer one, -1 when y is.
  function DistanceCmp(a: Address, x: Address, y: Address): Result<int, SearchError> {
    if |a| != |x| || |a| != |y| then Err(LengthMismatch)
    else if a == [] then Ok(0)
    else if a[0] ^ x[0] == a[0] ^ y[0] then DistanceCmp(a[1..], x[1..], y[1..])
    else if a[0] ^ x[0] < a[0] ^ y[0] then Ok(1)
    else Ok(-1)
  }

  datatype SearchError = NotFound | LengthMismatch

  lemma {:induction false} CmpComparesDistances(a: Address, x: Address, y: Address)
    requires |a| == |x| == |y|
    ensures DistanceCmp(a, x, y).Ok?
    ensures DistanceCmp(a, x, y).value == 1 <==> Distance(a, x) < Distance(a, y)
    ensures DistanceCmp(a, x, y).value == -1 <==> Distance(a, x) > Distance(a, y)
    ensures Distance(a, x) == Distance(a, y) <==> x == y
  {
    DistanceInjective(a, x, y);
    if a != [] {
      CmpComparesDistances(a[1..], x[1..], y[1..]);
      CmpStep(a, x, y);
      DigitsStep(a, x);
      DigitsStep(a, y);
      DigitsOrder(Digits(a, x), Digits(a, y));
    }
  }

  // The comparison goes by the first digit that differs.
  lemma CmpStep(a: Address, x: Address, y: Address)
    requires |a| == |x| == |y| > 0
    ensures var d, e := Digits(a, x)[0], Digits(a, y)[0];
            DistanceCmp(a, x, y) ==
            if d == e then DistanceCmp(a[1..], x[1..], y[1..]) else if d < e then Ok(1) else Ok(-1)
  {
    BytesAsNumbers(a[0] ^ x[0], a[0] ^ y[0]);
  }

  lemma DigitsOrder(ds: seq<Digit>, es: seq<Digit>)
    requires |ds| == |es| > 0
    ensures Number(ds) < Number(es) <==> ds[0] < es[0] || (ds[0] == es[0] && Number(ds[1..]) < Number(es[1..]))
    ensures Number(ds) == Number(es) <==> ds[0] == es[0] && Number(ds[1..]) == Number(es[1..])
  {
    if ds[0] < es[0] {
      FirstDigitDecides(ds, es);
    } else if es[0] < ds[0] {
      FirstDigitDecides(es, ds);
    } else {
      OtherDigitsDecide(ds, es);
    }
  }

  lemma {:induction false} DistanceInjective(a: Address, x: Address, y: Address)
    requires |a| == |x| == |y|
    ensures Distance(a, x) == Distance(a, y) <==> x == y
  {
    if a != [] && Distance(a, x) == Distance(a, y) {
      DigitsStep(a, x);
      DigitsStep(a, y);
      DigitsOrder(Digits(a, x), Digits(a, y));
      DifferenceInjective(a[0], x[0], y[0]);
      DistanceInjective(a[1..], x[1..], y[1..]);
      assert x == [x[0]] + x[1..] && y == [y[0]] + y[1..];
    }
  }

  lemma DigitsStep(a: Address, x: Address)
    requires |a| == |x| > 0
    ensures Digits(a, x)[0] == Difference(a[0], x[0]) && Digits(a, x)[1..] == Digits(a[1..], x[1..])
  {
  }

  lemma DifferenceLaws(a: Byte, x: Byte, c: Byte)
    ensures Difference(a, x) == Difference(x, a) && (Difference(a, x) == 0 <==> a == x)
    ensures Difference(a ^ c, x ^ c) == Difference(a, x) && Difference(a, 0) == a as nat
  {
    assert a ^ x == x ^ a && (a ^ c) ^ (x ^ c) == a ^ x && a ^ 0 == a && a ^ a == 0;
    DifferenceInjective(a, a, x);
  }

  function Shifted(a: Address, mask: Address): (s: Address)
    requires |a| == |mask|
    ensures |s| == |a|
  {
    seq(|a|, i requires 0 <= i < |a| => a[i] ^ mask[i])
  }

  // The distance is symmetric, zero only between equal addresses, and stays the same when both
  // addresses are combined with a third by exclusive or.
  lemma DistanceLaws(a: Address, x: Address, mask: Address)
    requires |a| == |x| == |mask|
    ensures Distance(a, x) == Distance(x, a)
    ensures Distance(a, x) == 0 <==> a == x
    ensures Distance(Shifted(a, mask), Shifted(x, mask)) == Distance(a, x)
  {
    DigitsSymmetric(a, x);
    DigitsShifted(a, x, mask);
    DigitsOfSame(a);
    NumberOfZeros(Digits(a, a));
    DistanceInjective(a, x, a);
  }

  lemma DigitsSymmetric(a: Address, x: Address)
    requires |a| == |x|
    ensures Digits(a, x) == Digits(x, a)
  {
    forall i | 0 <= i < |a|
      ensures Digits(a, x)[i] == Digits(x, a)[i]
    {
      DifferenceLaws(a[i], x[i], 0);
    }
  }

  lemma DigitsShifted(a: Address, x: Address, mask: Address)
    requires |a| == |x| == |mask|
    ensures Digits(Shifted(a, mask), Shifted(x, mask)) == Digits(a, x)
  {
    forall i | 0 <= i < |a|
      ensures Digits(Shifted(a, mask), Shifted(x, mask))[i] == Digits(a, x)[i]
    {
      DifferenceLaws(a[i], x[i], mask[i]);
    }
  }

  lemma DigitsOfSame(a: Address)
    ensures forall i :: 0 <= i < |a| ==> Digits(a, a)[i] == 0
  {
    forall i | 0 <= i < |a|
      ensures Digits(a, a)[i] == 0
    {
      DifferenceLaws(a[i], a[i], 0);
    }
  }

  lemma {:induction false} NumberOfZeros(digits: seq<Digit>)
    requires forall i :: 0 <= i < |digits| ==> digits[i] == 0
    ensures Number(digits) == 0
  {
    if digits != [] {
      NumberOfZeros(digits[..|digits| - 1]);
    }
  }

  //// The closest node of a list

  method ClosestOf(chunk: Address, nodes: seq<Address>) returns (r: Result<Address, SearchError>)
    requires nodes != []
    ensures r.Err? <==> |nodes| > 1 && exists i :: 0 <= i < |nodes| && |nodes[i]| != |chunk|
    ensures r.Ok? ==> r.value in nodes
    ensures r.Ok? && |nodes| > 1 ==> forall i :: 0 <= i < |nodes| ==>
              |nodes[i]| == |chunk| && |r.value| == |chunk| && Distance(chunk, r.value) <= Distance(chunk, nodes[i])
  {
    var closest := nodes[0];
    for k := 1 to |nodes|
      invariant closest in nodes
      invariant k > 1 ==> |closest| == |chunk| && forall i :: 0 <= i < k ==>
                  |nodes[i]| == |chunk| && Distance(chunk, closest) <= Distance(chunk, nodes[i])
      invariant k == 1 ==> closest == nodes[0]
    {
      var cmp := DistanceCmp(chunk, closest, nodes[k]);
      if |chunk| == |closest| == |nodes[k]| {
        CmpComparesDistances(chunk, closest, nodes[k]);
      }
      if cmp.Err? {
        assert closest in nodes && nodes[k] in nodes;
        return Err(cmp.error);
      }
      if cmp.value == -1 {
        closest := nodes[k];
      }
    }
    return Ok(closest);
  }

  //// The closest node of a map, in any iteration order

  ghost predicate Candidate(nodes: map<string, Address>, skip: seq<Address>, name: string) {
    name in nodes && nodes[name] !in skip
  }

  // All addresses that are not skipped can be compared with the chunk.
  ghost predicate Comparable(chunk: Address, nodes: map<string, Address>, skip: seq<Address>) {
    chunk != [] && forall name :: Candidate(nodes, skip, name) ==> |nodes[name]| == |chunk|
  }

  ghost predicate IsClosest(chunk: Address, nodes: map<string, Address>, skip: seq<Address>, name: string)
    requires Comparable(chunk, nodes, skip)
  {
    && Candidate(nodes, skip, name)
    && forall other :: Candidate(nodes, skip, other) ==> Distance(chunk, nodes[name]) <= Distance(chunk, nodes[other])
  }

  method ClosestNodeFromMap(chunk: Address, nodes: map<string, Address>, skip: seq<Address>)
    returns (r: Result<(string, Address), SearchError>)
    ensures Comparable(chunk, nodes, skip) ==>
              && (r.Ok? <==> exists name :: Candidate(nodes, skip, name))
              && (r.Ok? ==> IsClosest(chunk, nodes, skip, r.value.0) && nodes[r.value.0] == r.value.1)
              && (r.Err? ==> r.error == NotFound)
    ensures r.Ok? ==> Candidate(nodes, skip, r.value.0) && nodes[r.value.0] == r.value.1 != []
    ensures r.Err? && r.error == LengthMismatch ==>
              exists name :: Candidate(nodes, skip, name) && |nodes[name]| != |chunk|
  {
    var closestName, closestAddress: Address := "", [];
    var names := nodes.Keys;
    while names != {}
      invariant names <= nodes.Keys
      invariant closestAddress != [] ==> Candidate(nodes, skip, closestName) && nodes[closestName] == closestAddress
      invariant Comparable(chunk, nodes, skip) ==> forall other :: Candidate(nodes, skip, other) && other !in names ==>
                  closestAddress != [] && Distance(chunk, closestAddress) <= Distance(chunk, nodes[other])
      decreases names
    {
      var name :| name in names;
      names := names - {name};
      var a := nodes[name];
      if a in skip {
        continue;
      }
      assert Candidate(nodes, skip, name);
      if closestAddress == [] {
        closestName, closestAddress := name, a;
        continue;
      }
      var cmp := DistanceCmp(chunk, a, closestAddress);
      if |chunk| == |a| == |closestAddress| {
        CmpComparesDistances(chunk, a, closestAddress);
      }
      if cmp.Err? {
        return Err(LengthMismatch);
      }
      if cmp.value == 1 {
        closestName, closestAddress := name, a;
      }
    }
    if closestAddress == [] {
      return Err(NotFound);
    }
    return Ok((closestName, closestAddress));
  }

  //// Asking every other node, nearest first

  // The overlays' addresses; two names may share one.
  function Addresses(overlays: map<string, Address>): set<Address> {
    set name | name in overlays :: overlays[name]
  }

  lemma {:induction false} FewerAddressesThanNames(overlays: map<string, Address>)
    ensures |Addresses(overlays)| <= |overlays|
    decreases |overlays|
  {
    if overlays.Keys == {} {
      assert Addresses(overlays) == {};
    } else {
      var name :| name in overlays;
      var fewer := overlays - {name};
      FewerAddressesThanNames(fewer);
      forall a | a in Addresses(overlays)
        ensures a in Addresses(fewer) + {overlays[name]}
      {
        var other :| other in overlays && overlays[other] == a;
        assert other != name ==> other in fewer && fewer[other] == a;
      }
      assert Addresses(overlays) <= Addresses(fewer) + {overlays[name]};
      SubsetSize(Addresses(overlays), Addresses(fewer) + {overlays[name]});
      assert overlays.Keys == fewer.Keys + {name};
    }
  }

  ghost predicate Uniform(chunk: Address, overlays: map<string, Address>) {
    chunk != [] && forall name :: name in overlays ==> |overlays[name]| == |chunk|
  }

  // Each address in the list is nearer to the chunk than the ones after it.
  ghost predicate NearestFirst(chunk: Address, addresses: seq<Address>)
    requires forall i :: 0 <= i < |addresses| ==> |addresses[i]| == |chunk|
  {
    forall i, j :: 0 <= i < j < |addresses| ==> Distance(chunk, addresses[i]) < Distance(chunk, addresses[j])
  }

  function Elements(s: seq<Address>): set<Address> {
    set a | a in s
  }

  lemma {:induction false} DistinctCount(s: seq<Address>)
    requires forall i, j :: 0 <= i < j < |s| ==> s[i] != s[j]
    ensures |Elements(s)| == |s|
    decreases |s|
  {
    if s != [] {
      var front, last := s[..|s| - 1], s[|s| - 1];
      DistinctCount(front);
      assert s == front + [last];
      assert Elements(s) == Elements(front) + {last};
      assert last !in front;
    }
  }

  // What a round of the search knows: `skip` starts with the closest address, lists addresses nearest
  // first, and every address not in it is farther than all of them.
  ghost predicate Swept(chunk: Address, overlays: map<string, Address>, skip: seq<Address>)
    requires Uniform(chunk, overlays)
  {
    && skip != []
    && (forall i :: 0 <= i < |skip| ==> skip[i] in Addresses(overlays) && |skip[i]| == |chunk|)
    && NearestFirst(chunk, skip)
    && (forall i, name :: 0 <= i < |skip| && Candidate(overlays, skip, name) ==>
          Distance(chunk, skip[i]) < Distance(chunk, overlays[name]))
  }

  lemma SweepStep(chunk: Address, overlays: map<string, Address>, skip: seq<Address>, name: string)
    requires Uniform(chunk, overlays) && Swept(chunk, overlays, skip)
    requires IsClosest(chunk, overlays, skip, name)
    ensures Swept(chunk, overlays, skip + [overlays[name]])
  {
    var longer := skip + [overlays[name]];
    forall i, other | 0 <= i < |longer| && Candidate(overlays, longer, other)
      ensures Distance(chunk, longer[i]) < Distance(chunk, overlays[other])
    {
      assert overlays[other] != longer[|skip|];
      assert Candidate(overlays, skip, other);
      CmpComparesDistances(chunk, overlays[name], overlays[other]);
    }
  }

  // As many rounds as there are names are enough: the swept addresses are distinct.
  lemma SweepEnds(chunk: Address, overlays: map<string, Address>, skip: seq<Address>)
    requires Uniform(chunk, overlays) && Swept(chunk, overlays, skip)
    ensures |skip| <= |overlays|
    ensures |skip| == |overlays| ==> Elements(skip) == Addresses(overlays)
  {
    forall i, j | 0 <= i < j < |skip|
      ensures skip[i] != skip[j]
    {
      assert Distance(chunk, skip[i]) < Distance(chunk, skip[j]);
    }
    DistinctCount(skip);
    FewerAddressesThanNames(overlays);
    SubsetSize(Elements(skip), Addresses(overlays));
  }

  // The replica search of the light-node check. `answer` says what a node replies when asked for
  // the chunk; `asked` are the names asked, in order.
  method FindReplica(chunk: Address, overlays: map<string, Address>, closest: Address,
                     answer: string -> Result<bool, ()>)
    returns (replicated: bool, asked: seq<string>)
    requires Uniform(chunk, overlays)
    requires closest in Addresses(overlays)
    requires forall name :: name in overlays ==> Distance(chunk, closest) <= Distance(chunk, overlays[name])
    ensures forall i :: 0 <= i < |asked| ==> asked[i] in overlays
    ensures Swept(chunk, overlays, Visited(overlays, closest, asked))
    ensures forall i :: 0 <= i < |asked| - 1 ==> answer(asked[i]) != Ok(true)
    ensures replicated <==> asked != [] && answer(asked[|asked| - 1]) == Ok(true)
    ensures !replicated ==> Elements(Visited(overlays, closest, asked)) == Addresses(overlays)
  {
    asked := [];
    replicated := false;
    var skipPeers := [closest];
    StartSweep(chunk, overlays, closest);
    ghost var done := false;
    for round := 0 to |overlays|
      invariant forall i :: 0 <= i < |asked| ==> asked[i] in overlays && answer(asked[i]) != Ok(true)
      invariant Sweeping(chunk, overlays, closest, asked, skipPeers, round, done)
    {
      var name;
      name, skipPeers, done := NextRound(chunk, overlays, closest, asked, skipPeers, round, done);
      if name.None? {
        continue;
      }
      asked := asked + [name.value];
      var has := answer(name.value);
      if has.Err? {
        continue;
      }
      if has.value {
        replicated := true;
        return;
      }
    }
    AllSwept(chunk, overlays, closest, asked, skipPeers, |overlays|, done);
  }

  // The start of a round: the closest node not skipped, if any; its address is skipped from now on.
  method NextRound(chunk: Address, overlays: map<string, Address>, ghost closest: Address, ghost asked: seq<string>,
                   skipPeers: seq<Address>, ghost round: nat, ghost done: bool)
    returns (name: Option<string>, skip: seq<Address>, ghost over: bool)
    requires Uniform(chunk, overlays) && Sweeping(chunk, overlays, closest, asked, skipPeers, round, done)
    ensures name.None? ==> Sweeping(chunk, overlays, closest, asked, skip, round + 1, over)
    ensures name.Some? ==> name.value in overlays
                           && Sweeping(chunk, overlays, closest, asked + [name.value], skip, round + 1, over)
  {
    var next := ClosestNodeFromMap(chunk, overlays, skipPeers);
    if next.Err? {
      // the program appends the zero address it gets with the error
      SweepOver(chunk, overlays, closest, asked, skipPeers, round, done);
      return None, skipPeers + [[]], true;
    }
    SweepOn(chunk, overlays, closest, asked, skipPeers, round, done, next.value.0);
    return Some(next.value.0), skipPeers + [next.value.1], done;
  }

  // The state of the search after some rounds: while candidates are left, each round asked one.
  ghost predicate Sweeping(chunk: Address, overlays: map<string, Address>, closest: Address, asked: seq<string>,
                           skipPeers: seq<Address>, round: nat, done: bool)
    requires Uniform(chunk, overlays)
  {
    && Swept(chunk, overlays, Visited(overlays, closest, asked))
    && (!done ==> skipPeers == Visited(overlays, closest, asked) && |asked| == round)
    && (done ==> NothingLeft(overlays, Visited(overlays, closest, asked)) && NothingLeft(overlays, skipPeers))
  }

  lemma SweepOver(chunk: Address, overlays: map<string, Address>, closest: Address, asked: seq<string>,
                  skipPeers: seq<Address>, round: nat, done: bool)
    requires Uniform(chunk, overlays) && Sweeping(chunk, overlays, closest, asked, skipPeers, round, done)
    requires NothingLeft(overlays, skipPeers)
    ensures Sweeping(chunk, overlays, closest, asked, skipPeers + [[]], round + 1, true)
  {
    SkipMore(overlays, skipPeers, []);
  }

  lemma SweepOn(chunk: Address, overlays: map<string, Address>, closest: Address, asked: seq<string>,
                skipPeers: seq<Address>, round: nat, done: bool, name: string)
    requires Uniform(chunk, overlays) && Sweeping(chunk, overlays, closest, asked, skipPeers, round, done)
    requires IsClosest(chunk, overlays, skipPeers, name)
    ensures Sweeping(chunk, overlays, closest, asked + [name], skipPeers + [overlays[name]], round + 1, done)
  {
    AskStep(chunk, overlays, closest, asked, name);
  }

  lemma AllSwept(chunk: Address, overlays: map<string, Address>, closest: Address, asked: seq<string>,
                 skipPeers: seq<Address>, round: nat, done: bool)
    requires Uniform(chunk, overlays) && Sweeping(chunk, overlays, closest, asked, skipPeers, round, done)
    requires round == |overlays|
    ensures Elements(Visited(overlays, closest, asked)) == Addresses(overlays)
  {
    SweepEnds(chunk, overlays, Visited(overlays, closest, asked));
    if done {
      NoneLeft(overlays, Visited(overlays, closest, asked));
    }
  }

  // The closest address, then the addresses of the asked names.
  function Visited(overlays: map<string, Address>, closest: Address, asked: seq<string>): seq<Address> {
    [closest] + Located(overlays, asked)
  }

  ghost predicate NothingLeft(overlays: map<string, Address>, skip: seq<Address>) {
    forall name :: !Candidate(overlays, skip, name)
  }

  lemma SkipMore(overlays: map<string, Address>, skip: seq<Address>, more: Address)
    requires NothingLeft(overlays, skip)
    ensures NothingLeft(overlays, skip + [more])
  {
    forall name
      ensures !Candidate(overlays, skip + [more], name)
    {
      assert !Candidate(overlays, skip, name);
    }
  }

  lemma AskStep(chunk: Address, overlays: map<string, Address>, closest: Address, asked: seq<string>, name: string)
    requires Uniform(chunk, overlays) && Swept(chunk, overlays, Visited(overlays, closest, asked))
    requires IsClosest(chunk, overlays, Visited(overlays, closest, asked), name)
    ensures Visited(overlays, closest, asked + [name]) == Visited(overlays, closest, asked) + [overlays[name]]
    ensures Swept(chunk, overlays, Visited(overlays, closest, asked + [name]))
  {
    SweepStep(chunk, overlays, Visited(overlays, closest, asked), name);
  }

  function Located(overlays: map<string, Address>, names: seq<string>): seq<Address> {
    seq(|names|, i requires 0 <= i < |names| => if names[i] in overlays then overlays[names[i]] else [])
  }

  lemma StartSweep(chunk: Address, overlays: map<string, Address>, closest: Address)
    requires Uniform(chunk, overlays) && closest in Addresses(overlays)
    requires forall name :: name in overlays ==> Distance(chunk, closest) <= Distance(chunk, overlays[name])
    ensures Sweeping(chunk, overlays, closest, [], [closest], 0, false)
  {
    assert Visited(overlays, closest, []) == [closest];
    forall name | Candidate(overlays, [closest], name)
      ensures Distance(chunk, closest) < Distance(chunk, overlays[name])
    {
      assert overlays[name] != closest by {
        assert closest in [closest];
      }
      CmpComparesDistances(chunk, closest, overlays[name]);
    }
  }

  lemma NoneLeft(overlays: map<string, Address>, skip: seq<Address>)
    requires NothingLeft(overlays, skip)
    requires forall i :: 0 <= i < |skip| ==> skip[i] in Addresses(overlays)
    ensures Elements(skip) == Addresses(overlays)
  {
    forall a | a in Addresses(overlays)
      ensures a in skip
    {
      var name :| name in overlays && overlays[name] == a;
      assert !Candidate(overlays, skip, name);
    }
  }

  // Some node besides the closest has the chunk.
  ghost predicate ReplicaElsewhere(overlays: map<string, Address>, closest: string,
                                   answer: string -> Result<bool, ()>) {
    exists name :: name in overlays && name != closest && answer(name) == Ok(true)
  }

  ghost predicate NamesDiffer(overlays: map<string, Address>) {
    forall m, n :: m in overlays && n in overlays && overlays[m] == overlays[n] ==> m == n
  }

  // The tries the closest node is given.
  const TRIES := 3

  datatype Verdict = NoNode | NotSynced | NotReplicated | Replicated

  ghost predicate SomeTry(tries: nat -> bool) {
    exists k: nat :: k < TRIES && tries(k)
  }

  // The check of one uploaded chunk, with tries(k) telling whether the closest node has it at the
  // k-th try. If no two nodes share an address, it reports a chunk that is not synced exactly when
  // all tries fail, and a missing replica exactly when no other node has the chunk.
  method CheckReplicated(chunk: Address, overlays: map<string, Address>, tries: nat -> bool,
                         answer: string -> Result<bool, ()>)
    returns (v: Verdict, closest: string)
    requires Uniform(chunk, overlays) && NamesDiffer(overlays)
    ensures v == NoNode <==> overlays.Keys == {}
    ensures v != NoNode ==> IsClosest(chunk, overlays, [], closest)
    ensures v != NoNode ==>
              v == if !tries(0) && !tries(1) && !tries(2) then NotSynced
                   else if ReplicaElsewhere(overlays, closest, answer) then Replicated
                   else NotReplicated
  {
    assert forall name :: name in overlays ==> Candidate(overlays, [], name);
    var first := ClosestNodeFromMap(chunk, overlays, []);
    if first.Err? {
      return NoNode, "";
    }
    closest := first.value.0;
    var synced := IsSynced(tries);
    if !synced {
      return NotSynced, closest;
    }
    var replicated, asked := FindReplica(chunk, overlays, first.value.1, answer);
    AskedOthers(chunk, overlays, closest, asked);
    FoundIffElsewhere(overlays, closest, asked, answer, replicated);
    v := if replicated then Replicated else NotReplicated;
  }

  method IsSynced(tries: nat -> bool) returns (synced: bool)
    ensures synced <==> SomeTry(tries)
  {
    for k := 0 to TRIES
      invariant forall j: nat :: j < k ==> !tries(j)
    {
      if tries(k) {
        return true;
      }
    }
    return false;
  }

  lemma FoundIffElsewhere(overlays: map<string, Address>, closest: string, asked: seq<string>,
                          answer: string -> Result<bool, ()>, replicated: bool)
    requires NamesDiffer(overlays) && closest in overlays
    requires forall i :: 0 <= i < |asked| ==> asked[i] in overlays && asked[i] != closest
    requires forall i :: 0 <= i < |asked| - 1 ==> answer(asked[i]) != Ok(true)
    requires replicated <==> asked != [] && answer(asked[|asked| - 1]) == Ok(true)
    requires !replicated ==> Elements(Visited(overlays, overlays[closest], asked)) == Addresses(overlays)
    ensures replicated <==> ReplicaElsewhere(overlays, closest, answer)
  {
    if replicated {
      assert answer(asked[|asked| - 1]) == Ok(true);
    } else {
      AllAsked(overlays, closest, asked);
      NoneAnswers(overlays, closest, asked, answer);
    }
  }

  lemma NoneAnswers(overlays: map<string, Address>, closest: string, asked: seq<string>,
                    answer: string -> Result<bool, ()>)
    requires forall i :: 0 <= i < |asked| ==> answer(asked[i]) != Ok(true)
    requires forall name :: name in overlays && name != closest ==> name in asked
    ensures !ReplicaElsewhere(overlays, closest, answer)
  {
  }

  lemma AskedOthers(chunk: Address, overlays: map<string, Address>, closest: string, asked: seq<string>)
    requires Uniform(chunk, overlays) && closest in overlays
    requires forall i :: 0 <= i < |asked| ==> asked[i] in overlays
    requires Swept(chunk, overlays, Visited(overlays, overlays[closest], asked))
    ensures forall i :: 0 <= i < |asked| ==> asked[i] != closest
  {
    var visited := Visited(overlays, overlays[closest], asked);
    forall i | 0 <= i < |asked|
      ensures asked[i] != closest
    {
      assert visited[i + 1] == overlays[asked[i]];
      assert Distance(chunk, visited[0]) < Distance(chunk, visited[i + 1]);
    }
  }

  lemma AllAsked(overlays: map<string, Address>, closest: string, asked: seq<string>)
    requires closest in overlays && NamesDiffer(overlays)
    requires forall i :: 0 <= i < |asked| ==> asked[i] in overlays
    requires Elements(Visited(overlays, overlays[closest], asked)) == Addresses(overlays)
    ensures forall name :: name in overlays && name != closest ==> name in asked
  {
    var visited := Visited(overlays, overlays[closest], asked);
    forall name | name in overlays && name != closest
      ensures name in asked
    {
      assert overlays[name] in Addresses(overlays);
      assert overlays[name] in Elements(visited);
      var i :| 0 <= i < |visited| && visited[i] == overlays[name];
      assert i > 0;
      assert visited[i] == overlays[asked[i - 1]];
    }
  }
}
