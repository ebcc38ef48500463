/**
 The size of a chunk tree and the batch depth derived from it (pkg/bee/postage.go). The program
 keeps the level size as an unrounded quotient and rounds only when it adds a level; the tree it
 counts rounds at every level.
 */
module PostageChunks {
  import opened Powers
  import opened Arithmetic

  const CHUNK_SIZE := 4096
  const BRANCHES := 128
  const ENCRYPTED_BRANCHES := 64
  const MINIMUM_BATCH_DEPTH := 2

  function CeilDiv(n: nat, d: nat): nat
    requires d > 0
  {
    (n + d - 1) / d
  }

  function Ceil(x: real): int {
    -((-x).Floor)
  }

  // The chunks of a tree whose lowest level has `level` chunks: each level above has one chunk for
  // every `branching` chunks, rounded up, until a single root is left.
  function TreeSize(level: nat, branching: nat): nat
    requires level > 0 && branching >= 2
    decreases level
  {
    if level == 1 then 1
    else
      CeilDivShrinks(level, branching);
      level + TreeSize(CeilDiv(level, branching), branching)
  }

  // The chunks of a content: its data chunks and everything above them.
  function ContentChunks(length: int, branching: nat): nat
    requires branching >= 2
  {
    if length <= CHUNK_SIZE then 1
    else
      CeilDivBounds(length, CHUNK_SIZE);
      TreeSize(CeilDiv(length, CHUNK_SIZE), branching)
  }

  //// Division rounded up

  lemma CeilDivBounds(n: nat, d: nat)
    requires d > 0
    ensures (CeilDiv(n, d) - 1) * d < n <= CeilDiv(n, d) * d
    ensures n > 0 ==> CeilDiv(n, d) > 0
  {
    var q := (n + d - 1) / d;
    assert n + d - 1 == q * d + (n + d - 1) % d;
  }

  lemma CeilDivUnique(n: nat, d: nat, q: int)
    requires d > 0 && (q - 1) * d < n <= q * d
    ensures q == CeilDiv(n, d)
  {
    var c: int := CeilDiv(n, d);
    CeilDivBounds(n, d);
    if q < c {
      MulMonotone(q, c - 1, d);
    } else if c < q {
      MulMonotone(c, q - 1, d);
    }
  }

  lemma CeilDivMonotone(m: nat, n: nat, d: nat)
    requires d > 0 && m <= n
    ensures CeilDiv(m, d) <= CeilDiv(n, d)
  {
    var p: int, q: int := CeilDiv(m, d), CeilDiv(n, d);
    CeilDivBounds(m, d);
    CeilDivBounds(n, d);
    if q < p {
      MulMonotone(q, p - 1, d);
    }
  }

  lemma CeilDivShrinks(n: nat, d: nat)
    requires n >= 2 && d >= 2
    ensures 0 < CeilDiv(n, d) < n
  {
    var q: int := CeilDiv(n, d);
    CeilDivBounds(n, d);
    assert (n - 1) * 2 <= (n - 1) * d;
    if q >= n {
      MulMonotone(n - 1, q - 1, d);
    }
  }

  // Rounding up after dividing twice is rounding up after each division.
  lemma CeilDivTwice(n: nat, c: nat, d: nat)
    requires c > 0 && d > 0 && c * d > 0
    ensures CeilDiv(CeilDiv(n, c), d) == CeilDiv(n, c * d)
  {
    var p: int := CeilDiv(n, c);
    var q: int := CeilDiv(p, d);
    CeilDivBounds(n, c);
    CeilDivBounds(p, d);
    assert n <= q * (c * d) by {
      MulMonotone(p, q * d, c);
      Reassociate(q, c, d);
    }
    assert (q - 1) * (c * d) < n by {
      MulMonotone((q - 1) * d, p - 1, c);
      Reassociate(q - 1, c, d);
    }
    CeilDivUnique(n, c * d, q);
  }

  lemma Reassociate(q: int, c: nat, d: nat)
    ensures q * (c * d) == (q * d) * c
  {
  }

  lemma CeilOfQuotient(n: nat, d: nat, x: real)
    requires d > 0 && x * d as real == n as real
    ensures Ceil(x) == CeilDiv(n, d)
    ensures x > 1.0 <==> CeilDiv(n, d) > 1
  {
    var q := Ceil(x);
    CeilBounds(x, n, d, q);
    if q < 0 {
      MulMonotone(q, -1, d);
    }
    CeilDivUnique(n, d, q);
  }

  lemma CeilBounds(x: real, n: nat, d: nat, q: int)
    requires d > 0 && x * d as real == n as real && q == Ceil(x)
    ensures (q - 1) * d < n <= q * d
  {
    ProductBelow(q - 1, x, n, d);
    ProductBelow(q, x, n, d);
  }

  lemma ProductBelow(k: int, x: real, n: int, d: nat)
    requires d > 0 && x * d as real == n as real
    ensures k as real < x <==> k * d < n
  {
    RealMulMonotone(k as real, x, d as real);
    IntRealMul(k, d);
    assert (k * d) as real < n as real <==> k * d < n;
  }

  //// The program

  method CalculateNumberOfChunks(contentLength: int, isEncrypted: bool) returns (chunks: int)
    ensures chunks == ContentChunks(contentLength, if isEncrypted then 64 else 128)
  {
    if contentLength <= CHUNK_SIZE {
      return 1;
    }
    var branching := BRANCHES;
    if isEncrypted {
      branching := ENCRYPTED_BRANCHES;
    }
    var quotient := contentLength as real / CHUNK_SIZE as real;
    CeilOfQuotient(contentLength, CHUNK_SIZE, quotient);
    var dataChunks := Ceil(quotient) as real;
    ghost var data := CeilDiv(contentLength, CHUNK_SIZE);
    FirstLevel(contentLength, branching);
    var total := AddLevels(dataChunks, branching, data);
    return total.Floor + 1;
  }

  // The loop over the intermediate levels; all but the root are in the total.
  method AddLevels(dataChunks: real, branching: nat, ghost data: nat) returns (total: real)
    requires branching >= 2 && dataChunks == data as real
    requires AtLevel(data, branching, branching, data, dataChunks / branching as real)
    ensures total + 1.0 == TreeSize(data, branching) as real
  {
    total := dataChunks;
    var intermediate := dataChunks / branching as real;
    // the divisor that `intermediate` stands for, and the level below the one it rounds to
    ghost var divisor, below := branching, data;
    while intermediate > 1.0
      invariant divisor >= 0 && below >= 0
      invariant AtLevel(data, branching, divisor, below, intermediate)
      invariant total + TreeSize(CeilDiv(below, branching), branching) as real == TreeSize(data, branching) as real
      decreases below
    {
      NextLevel(data, branching, divisor, below, intermediate, divisor * branching);
      total := total + Ceil(intermediate) as real;
      below := CeilDiv(below, branching);
      intermediate := intermediate / branching as real;
      divisor := divisor * branching;
    }
    LastLevel(data, branching, divisor, below, intermediate);
  }

  // `intermediate` is the unrounded size of the level above `below`.
  ghost predicate AtLevel(data: nat, branching: nat, divisor: nat, below: nat, intermediate: real) {
    && branching >= 2 && divisor > 0 && below >= 2
    && intermediate * divisor as real == data as real
    && CeilDiv(below, branching) == CeilDiv(data, divisor) > 0
  }

  lemma FirstLevel(contentLength: int, branching: nat)
    requires contentLength > CHUNK_SIZE && branching >= 2
    ensures var data := CeilDiv(contentLength, CHUNK_SIZE);
            AtLevel(data, branching, branching, data, data as real / branching as real)
  {
  }

  lemma NextLevel(data: nat, branching: nat, divisor: nat, below: nat, intermediate: real, next: nat)
    requires AtLevel(data, branching, divisor, below, intermediate) && intermediate > 1.0
    requires next == divisor * branching
    ensures Ceil(intermediate) == CeilDiv(below, branching) < below
    ensures AtLevel(data, branching, next, CeilDiv(below, branching), intermediate / branching as real)
    ensures var level := CeilDiv(below, branching);
            TreeSize(level, branching) == level + TreeSize(CeilDiv(level, branching), branching)
  {
    CeilOfQuotient(data, divisor, intermediate);
    RoundedStep(data, branching, divisor, below, next);
    QuotientStep(intermediate, divisor, branching, data, next);
  }

  lemma RoundedStep(data: nat, branching: nat, divisor: nat, below: nat, next: nat)
    requires branching >= 2 && divisor > 0 && below >= 2 && next == divisor * branching
    requires CeilDiv(below, branching) == CeilDiv(data, divisor) > 1
    ensures next > 0
    ensures CeilDiv(below, branching) < below
    ensures var level := CeilDiv(below, branching);
            CeilDiv(level, branching) == CeilDiv(data, next) > 0
            && TreeSize(level, branching) == level + TreeSize(CeilDiv(level, branching), branching)
  {
    var level := CeilDiv(below, branching);
    CeilDivShrinks(below, branching);
    CeilDivShrinks(level, branching);
    CeilDivTwice(data, divisor, branching);
  }

  lemma QuotientStep(x: real, divisor: nat, branching: nat, data: nat, next: nat)
    requires branching > 0 && next == divisor * branching
    requires x * divisor as real == data as real
    ensures (x / branching as real) * next as real == data as real
  {
    IntRealMul(divisor, branching);
    var d, b := divisor as real, branching as real;
    var y := x / b;
    assert y * b == x;
    assert y * (d * b) == (y * b) * d;
  }

  lemma LastLevel(data: nat, branching: nat, divisor: nat, below: nat, intermediate: real)
    requires AtLevel(data, branching, divisor, below, intermediate) && intermediate <= 1.0
    ensures CeilDiv(below, branching) == 1
  {
    CeilOfQuotient(data, divisor, intermediate);
  }

  //// The tree by direct division

  function Power(base: nat, k: nat): nat {
    if k == 0 then 1 else Power(base, k - 1) * base
  }

  // The chunks of the levels 0 to h: level k has one chunk for every branching^k data chunks.
  function LevelSum(data: nat, branching: nat, h: nat): nat
    requires branching >= 2
    decreases h
  {
    PowerPositive(branching, h);
    CeilDiv(data, Power(branching, h)) + (if h == 0 then 0 else LevelSum(data, branching, h - 1))
  }

  lemma {:induction false} PowerPositive(base: nat, k: nat)
    requires base > 0
    ensures Power(base, k) > 0
  {
    if k > 0 {
      PowerPositive(base, k - 1);
      MulMonotone(1, Power(base, k - 1), base);
    }
  }

  // The levels of a tree are those of the tree over its first intermediate level, and its data.
  lemma {:induction false} LevelSumStep(data: nat, branching: nat, h: nat)
    requires branching >= 2 && h > 0
    ensures LevelSum(data, branching, h) == data + LevelSum(CeilDiv(data, branching), branching, h - 1)
    decreases h
  {
    PowerPositive(branching, h - 1);
    PowerPositive(branching, h);
    PowerFront(branching, h - 1);
    CeilDivTwice(data, branching, Power(branching, h - 1));
    if h == 1 {
      CeilDivUnique(data, 1, data);
      assert Power(branching, 0) == 1;
    } else {
      LevelSumStep(data, branching, h - 1);
    }
  }

  lemma {:induction false} PowerFront(base: nat, k: nat)
    ensures Power(base, k + 1) == base * Power(base, k)
  {
    if k > 0 {
      PowerFront(base, k - 1);
      Reassociate(base, Power(base, k - 1), base);
      assert Power(base, k + 1) == Power(base, k) * base;
    }
  }

  // The tree has the levels up to the first that a single chunk covers: h is the least number of
  // levels whose capacity branching^h reaches the data.
  lemma {:induction false} TreeByLevels(data: nat, branching: nat, h: nat)
    requires data > 0 && branching >= 2
    requires data <= Power(branching, h) && (h > 0 ==> Power(branching, h - 1) < data)
    ensures TreeSize(data, branching) == LevelSum(data, branching, h)
    decreases h
  {
    PowerPositive(branching, h);
    if h == 0 {
      CeilDivUnique(1, 1, 1);
    } else {
      PowerPositive(branching, h - 1);
      var level := CeilDiv(data, branching);
      CeilDivShrinks(data, branching);
      LevelFits(data, branching, h);
      TreeByLevels(level, branching, h - 1);
      LevelSumStep(data, branching, h);
    }
  }

  lemma LevelFits(data: nat, branching: nat, h: nat)
    requires branching >= 2 && h > 0 && Power(branching, h - 1) < data <= Power(branching, h)
    ensures var level := CeilDiv(data, branching);
            && level <= Power(branching, h - 1)
            && (h > 1 ==> Power(branching, h - 2) < level)
  {
    var level: int := CeilDiv(data, branching);
    CeilDivBounds(data, branching);
    if Power(branching, h - 1) < level {
      MulMonotone(Power(branching, h - 1), level - 1, branching);
    }
    if h > 1 && level <= Power(branching, h - 2) {
      MulMonotone(level, Power(branching, h - 2), branching);
    }
  }

  // A full tree of height h has branching^0 + ... + branching^h chunks.
  lemma {:induction false} FullTree(branching: nat, h: nat)
    requires branching >= 2
    ensures Power(branching, h) > 0
    ensures TreeSize(Power(branching, h), branching) * (branching - 1) == Power(branching, h + 1) - 1
  {
    PowerPositive(branching, h);
    var data := Power(branching, h);
    if h == 0 {
      assert Power(branching, 1) == Power(branching, 0) * branching;
    } else {
      FullTree(branching, h - 1);
      FullTreeStep(branching, h, Power(branching, h - 1));
    }
  }

  lemma FullTreeStep(branching: nat, h: nat, below: nat)
    requires branching >= 2 && h > 0 && below == Power(branching, h - 1) > 0
    requires TreeSize(below, branching) * (branching - 1) == Power(branching, h) - 1
    ensures Power(branching, h) > 0
    ensures TreeSize(Power(branching, h), branching) * (branching - 1) == Power(branching, h + 1) - 1
  {
    var data := Power(branching, h);
    MulMonotone(1, below, branching);
    OneLevelMore(data, below, branching);
    var smaller := TreeSize(below, branching);
    GeometricStep(data, branching, smaller, data + smaller, Power(branching, h + 1));
  }

  lemma OneLevelMore(data: nat, below: nat, branching: nat)
    requires branching >= 2 && below > 0 && data == below * branching && data >= 2
    ensures TreeSize(data, branching) == data + TreeSize(below, branching)
  {
    CeilDivUnique(data, branching, below);
  }

  lemma GeometricStep(data: nat, branching: nat, smaller: nat, larger: nat, next: nat)
    requires branching >= 2 && larger == data + smaller && smaller * (branching - 1) == data - 1
    requires next == data * branching
    ensures larger * (branching - 1) == next - 1
  {
    assert larger * (branching - 1) == data * (branching - 1) + smaller * (branching - 1);
    assert data * (branching - 1) == data * branching - data;
  }

  // A content of up to 4096 bytes is one chunk, a longer one has a data chunk for every 4096 bytes.
  lemma ContentByDataChunks(length: int, n: nat, branching: nat)
    requires n > 0 && branching >= 2
    ensures length <= 4096 ==> ContentChunks(length, branching) == 1
    ensures (n - 1) * 4096 < length <= n * 4096 ==> ContentChunks(length, branching) == TreeSize(n, branching)
  {
    if (n - 1) * 4096 < length <= n * 4096 {
      CeilDivUnique(length, CHUNK_SIZE, n);
    }
  }

  //// Monotone in the content length

  lemma {:induction false} TreeSizeMonotone(m: nat, n: nat, branching: nat)
    requires 0 < m <= n && branching >= 2
    ensures TreeSize(m, branching) <= TreeSize(n, branching)
    decreases n
  {
    if m > 1 {
      CeilDivShrinks(m, branching);
      CeilDivShrinks(n, branching);
      CeilDivMonotone(m, n, branching);
      TreeSizeMonotone(CeilDiv(m, branching), CeilDiv(n, branching), branching);
    }
  }

  lemma ChunksMonotone(shorter: int, longer: int, branching: nat)
    requires shorter <= longer && branching >= 2
    ensures ContentChunks(shorter, branching) <= ContentChunks(longer, branching)
  {
    if longer > CHUNK_SIZE {
      var n := CeilDiv(longer, CHUNK_SIZE);
      CeilDivBounds(longer, CHUNK_SIZE);
      if shorter <= CHUNK_SIZE {
        TreeSizeMonotone(1, n, branching);
      } else {
        CeilDivBounds(shorter, CHUNK_SIZE);
        CeilDivMonotone(shorter, longer, CHUNK_SIZE);
        TreeSizeMonotone(CeilDiv(shorter, CHUNK_SIZE), n, branching);
      }
    }
  }

  //// The batch depth

  method EstimatePostageBatchDepth(contentLength: int) returns (depth: nat)
    ensures 2 <= depth
    ensures Pow2(depth + 1) > ContentChunks(contentLength, 128)
    // no depth that is one less would do, unless the minimum applies
    ensures depth > 2 ==> Pow2(depth) <= ContentChunks(contentLength, 128)
  {
    var chunks := CalculateNumberOfChunks(contentLength, false);
    ChunksPositive(contentLength, BRANCHES);
    var log := FloorLog2(chunks);
    depth := if log > MINIMUM_BATCH_DEPTH then log else MINIMUM_BATCH_DEPTH;
    Pow2Monotone(log + 1, depth + 1);
  }

  lemma ChunksPositive(length: int, branching: nat)
    requires branching >= 2
    ensures ContentChunks(length, branching) > 0
  {
  }

  // The depth the checks ask for: two more than the estimate holds more than twice the content, and
  // at most four times as much unless the minimum applies.
  method RequestedDepth(contentLength: int) returns (depth: nat)
    ensures Pow2(depth) > 2 * ContentChunks(contentLength, 128)
    ensures depth > 4 ==> Pow2(depth) <= 4 * ContentChunks(contentLength, 128)
  {
    var estimate := EstimatePostageBatchDepth(contentLength);
    depth := 2 + estimate;
    assert Pow2(depth) == 2 * Pow2(estimate + 1) == 4 * Pow2(estimate);
  }
}
