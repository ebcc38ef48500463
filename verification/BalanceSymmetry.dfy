/**
 Validation of accounting balances (pkg/check/balances/balances.go, and the balance part of
 pkg/check/settlements/settlements.go): what two nodes owe each other must cancel out. Acceptance
 makes the whole cluster a closed system: its balances add up to zero.
 */
module BalanceSymmetry {
  import Int64

  type Balances = map<string, map<string, int>>

  // A missing entry reads as zero.
  function Entry(m: Balances, a: string, b: string): int {
    if a in m && b in m[a] then m[a][b] else 0
  }

  ghost predicate Representable(m: Balances) {
    forall a, b :: Int64.Fits(Entry(m, a, b))
  }

  // The test of one pair, in 64-bit arithmetic.
  predicate Cancels(m: Balances, a: string, b: string) {
    Int64.Wrap(Entry(m, a, b) + Entry(m, b, a)) == 0
  }

  ghost predicate Antisymmetric(m: Balances) {
    forall a, b :: Entry(m, a, b) == -Entry(m, b, a)
  }

  method ValidateBalances(m: Balances) returns (valid: bool)
    ensures valid <==> forall a, b :: Cancels(m, a, b)
  {
    var noSymmetry := false;
    var nodes := m.Keys;
    while nodes != {}
      invariant nodes <= m.Keys
      invariant noSymmetry ==> exists a, b :: !Cancels(m, a, b)
      invariant !noSymmetry ==> forall a, b :: a in m && a !in nodes && b in m[a] ==> Cancels(m, a, b)
      decreases nodes
    {
      var node :| node in nodes;
      nodes := nodes - {node};
      var peers := m[node].Keys;
      while peers != {}
        invariant peers <= m[node].Keys
        invariant noSymmetry ==> exists a, b :: !Cancels(m, a, b)
        invariant !noSymmetry ==> forall a, b :: a in m && a !in nodes + {node} && b in m[a] ==> Cancels(m, a, b)
        invariant !noSymmetry ==> forall b :: b in m[node] && b !in peers ==> Cancels(m, node, b)
        decreases peers
      {
        var peer :| peer in peers;
        peers := peers - {peer};
        var other := if peer in m && node in m[peer] then m[peer][node] else 0;
        var diff := Int64.Wrap(m[node][peer] + other);
        if diff != 0 {
          assert !Cancels(m, node, peer);
          noSymmetry := true;
        }
      }
    }
    if !noSymmetry {
      forall a, b
        ensures Cancels(m, a, b)
      {
        assert Cancels(m, a, b) || Cancels(m, b, a);
      }
    }
    return !noSymmetry;
  }

  lemma WrapsToZero(x: int, y: int)
    requires Int64.Fits(x) && Int64.Fits(y)
    ensures Int64.Wrap(x + y) == 0 <==> x + y == 0 || (x == Int64.MIN && y == Int64.MIN)
  {
  }

  // Acceptance is antisymmetry, except that two minimal balances also cancel out: their sum wraps
  // around to zero.
  lemma AcceptedPairs(m: Balances)
    requires Representable(m)
    ensures (forall a, b :: Cancels(m, a, b)) <==>
            (forall a, b :: Entry(m, a, b) == -Entry(m, b, a) || Entry(m, a, b) == Entry(m, b, a) == Int64.MIN)
  {
    forall a, b
      ensures Cancels(m, a, b) <==> Entry(m, a, b) == -Entry(m, b, a) || Entry(m, a, b) == Entry(m, b, a) == Int64.MIN
    {
      WrapsToZero(Entry(m, a, b), Entry(m, b, a));
    }
  }

  ghost predicate NoMinimum(m: Balances) {
    forall a, b :: Entry(m, a, b) != Int64.MIN
  }

  lemma AcceptedIsAntisymmetric(m: Balances)
    requires Representable(m)
    ensures Antisymmetric(m) <==> (forall a, b :: Cancels(m, a, b)) && NoMinimum(m)
  {
    AcceptedPairs(m);
    if Antisymmetric(m) {
      forall a, b
        ensures Entry(m, a, b) != Int64.MIN
      {
        assert Entry(m, a, b) == -Entry(m, b, a) && Int64.Fits(Entry(m, b, a));
      }
    }
  }

  // Told from the maps: an entry is the opposite of the one across if there is one, and zero if there
  // is none; only two smallest numbers may face each other.
  predicate Opposed(m: Balances, a: string, b: string)
    requires a in m && b in m[a]
  {
    if b in m && a in m[b] then m[a][b] + m[b][a] == 0 || m[a][b] == m[b][a] == -0x8000_0000_0000_0000
    else m[a][b] == 0
  }

  lemma CancelsWhenOpposed(m: Balances, a: string, b: string)
    requires Representable(m) && a in m && b in m[a]
    ensures Cancels(m, a, b) <==> Opposed(m, a, b)
    ensures Cancels(m, a, b) == Cancels(m, b, a)
  {
    assert Int64.Fits(Entry(m, a, b)) && Int64.Fits(Entry(m, b, a));
    WrapsToZero(Entry(m, a, b), Entry(m, b, a));
  }

  lemma AcceptedEntries(m: Balances)
    requires Representable(m)
    ensures (forall a, b :: Cancels(m, a, b)) <==> forall a, b :: a in m && b in m[a] ==> Opposed(m, a, b)
  {
    forall a, b | a in m && b in m[a]
      ensures Cancels(m, a, b) <==> Opposed(m, a, b)
      ensures Cancels(m, a, b) == Cancels(m, b, a)
    {
      CancelsWhenOpposed(m, a, b);
    }
    forall a, b
      ensures (a in m && b in m[a]) || (b in m && a in m[b]) || Cancels(m, a, b)
    {
    }
  }

  // Two balances that are accepted although both nodes claim to owe the other.
  lemma MinimumAccepted()
    ensures var m := map["a" := map["b" := Int64.MIN], "b" := map["a" := Int64.MIN]];
            Representable(m) && (forall a, b :: Cancels(m, a, b)) && !Antisymmetric(m)
  {
    var m := map["a" := map["b" := Int64.MIN], "b" := map["a" := Int64.MIN]];
    assert Entry(m, "a", "b") == Entry(m, "b", "a") == Int64.MIN;
    forall a, b
      ensures Cancels(m, a, b)
    {
      assert Entry(m, a, b) == Entry(m, b, a);
    }
  }

  //// Conservation

  type Pair = (string, string)

  ghost function Sum(m: Balances, s: set<Pair>): int {
    if s == {} then 0
    else
      var p :| p in s;
      Entry(m, p.0, p.1) + Sum(m, s - {p})
  }

  lemma {:induction false} SumRemove(m: Balances, s: set<Pair>, p: Pair)
    requires p in s
    ensures Sum(m, s) == Entry(m, p.0, p.1) + Sum(m, s - {p})
    decreases s
  {
    var q :| q in s && Sum(m, s) == Entry(m, q.0, q.1) + Sum(m, s - {q});
    if q != p {
      SumRemove(m, s - {q}, p);
      SumRemove(m, s - {p}, q);
      assert s - {q} - {p} == s - {p} - {q};
    }
  }

  // The entries that are present.
  function Entries(m: Balances): set<Pair> {
    set a, b | a in m && b in m[a] :: (a, b)
  }

  function Mirror(s: set<Pair>): set<Pair> {
    set p | p in s :: (p.1, p.0)
  }

  // Pairs that are absent add nothing.
  lemma {:induction false} SumWithAbsent(m: Balances, s: set<Pair>, extra: set<Pair>)
    requires s !! extra && forall p :: p in extra ==> Entry(m, p.0, p.1) == 0
    ensures Sum(m, s + extra) == Sum(m, s)
    decreases extra
  {
    if extra == {} {
      assert s + extra == s;
    } else {
      var p :| p in extra;
      SumRemove(m, s + extra, p);
      assert s + extra - {p} == s + (extra - {p});
      SumWithAbsent(m, s, extra - {p});
    }
  }

  lemma {:induction false} MirroredSumIsZero(m: Balances, s: set<Pair>)
    requires Antisymmetric(m)
    requires forall p :: p in s ==> (p.1, p.0) in s
    ensures Sum(m, s) == 0
    decreases s
  {
    if s != {} {
      var p :| p in s;
      var q := (p.1, p.0);
      SumRemove(m, s, p);
      if p == q {
        MirroredSumIsZero(m, s - {p});
      } else {
        SumRemove(m, s - {p}, q);
        MirroredSumIsZero(m, s - {p} - {q});
      }
      assert Entry(m, p.0, p.1) == -Entry(m, q.0, q.1);
    }
  }

  // The balances of an antisymmetric cluster add up to zero.
  lemma BalancesConserved(m: Balances)
    requires Antisymmetric(m)
    ensures Sum(m, Entries(m)) == 0
  {
    var present := Entries(m);
    var absent := Mirror(present) - present;
    SumWithAbsent(m, present, absent);
    MirroredSumIsZero(m, present + absent);
  }

  //// Settlement validation

  datatype Account = Account(balance: int, thresholdReceived: int, thresholdGiven: int)

  type Accounting = map<string, map<string, Account>>

  function BalancesOf(accounting: Accounting): Balances {
    map a | a in accounting :: map b | b in accounting[a] :: accounting[a][b].balance
  }

  predicate WithinThresholds(x: Account) {
    Int64.Wrap(-1 * x.thresholdReceived) <= x.balance <= x.thresholdGiven
  }

  // The balance lies between the two thresholds; a smallest received threshold has no opposite, and
  // then nothing is too low.
  lemma ThresholdsMeaning(x: Account)
    requires Int64.Fits(x.balance) && Int64.Fits(x.thresholdReceived)
    ensures WithinThresholds(x) <==>
            (x.thresholdReceived == Int64.MIN || x.balance + x.thresholdReceived >= 0) && x.balance <= x.thresholdGiven
  {
  }

  lemma BalancesAreAccounts(accounting: Accounting, a: string, b: string)
    ensures Entry(BalancesOf(accounting), a, b) ==
            if a in accounting && b in accounting[a] then accounting[a][b].balance else 0
  {
  }

  ghost predicate AllWithin(accounting: Accounting) {
    forall a, b :: a in accounting && b in accounting[a] ==> WithinThresholds(accounting[a][b])
  }

  method CheckThresholds(accounting: Accounting) returns (within: bool)
    ensures within <==> AllWithin(accounting)
  {
    var nodes := accounting.Keys;
    while nodes != {}
      invariant nodes <= accounting.Keys
      invariant forall a, b :: a in accounting && a !in nodes && b in accounting[a] ==>
                  WithinThresholds(accounting[a][b])
      decreases nodes
    {
      var node :| node in nodes;
      nodes := nodes - {node};
      var peers := accounting[node].Keys;
      while peers != {}
        invariant peers <= accounting[node].Keys
        invariant forall b :: b in accounting[node] && b !in peers ==> WithinThresholds(accounting[node][b])
        decreases peers
      {
        var peer :| peer in peers;
        peers := peers - {peer};
        var info := accounting[node][peer];
        if info.balance < Int64.Wrap(-1 * info.thresholdReceived) {
          return false;
        }
        if info.balance > info.thresholdGiven {
          return false;
        }
      }
    }
    return true;
  }

  // Settlements are accepted exactly when every balance is within its thresholds and all balances
  // cancel out; then no money is created.
  method ValidateSettlements(accounting: Accounting) returns (valid: bool)
    ensures valid <==> AllWithin(accounting) && forall a, b :: Cancels(BalancesOf(accounting), a, b)
    ensures valid && Representable(BalancesOf(accounting)) && NoMinimum(BalancesOf(accounting)) ==>
              Antisymmetric(BalancesOf(accounting)) && Sum(BalancesOf(accounting), Entries(BalancesOf(accounting))) == 0
  {
    valid := CheckThresholds(accounting);
    if valid {
      valid := ValidateBalances(BalancesOf(accounting));
    }
    if valid && Representable(BalancesOf(accounting)) && NoMinimum(BalancesOf(accounting)) {
      AcceptedIsAntisymmetric(BalancesOf(accounting));
      BalancesConserved(BalancesOf(accounting));
    }
  }
}
