/** Host tiling of a one-dimensional broadcast: a length is cut into tiles that fit
    the local buffer, and the tiles are dealt to cores. */
module OneDimTiling {
  import opened Arith
  import opened Wrappers

  const CACHE_LINE: nat := 128
  const PER_CORE_MIN_UB_BYTE: nat := 8 * 1024

  /** blockNum cores take blockFormer tiles each, the last one blockTail; a tile has
      ubFormer elements, the last one ubTail. */
  datatype Split = Split(blockNum: nat, blockFormer: nat, blockTail: nat, ubFormer: nat, ubTail: nat)

  /** The split covers exactly length elements on at most cores cores. */
  ghost predicate Exact(s: Split, length: nat, cores: nat) {
    && 1 <= s.ubTail <= s.ubFormer && 1 <= s.blockTail <= s.blockFormer && 1 <= s.blockNum <= cores
    && ((s.blockNum - 1) * s.blockFormer + s.blockTail - 1) * s.ubFormer + s.ubTail == length
  }

  /** The tiles are dealt evenly: with a smaller largest share the cores could not take them all. */
  ghost predicate Balanced(s: Split, cores: nat) {
    (s.blockFormer - 1) * cores < (s.blockNum - 1) * s.blockFormer + s.blockTail
  }

  function CeilOf(n: nat, d: nat): (q: nat)
    requires d > 0
  {
    (n + d - 1) / d
  }

  /** The remainder, with a whole last part instead of an empty one. */
  function TailOf(n: nat, d: nat): (t: nat)
    requires d > 0
  {
    if n % d == 0 then d else n % d
  }

  lemma CeilTail(n: nat, d: nat)
    requires n > 0 && d > 0
    ensures CeilOf(n, d) >= 1 && 1 <= TailOf(n, d) <= d
    ensures (CeilOf(n, d) - 1) * d + TailOf(n, d) == n
  {
    hide CeilOf;
    var q, r := n / d, n % d;
    CeilQuotient(n, d, q, r);
    assert (q - 1) * d == q * d - d;
  }

  lemma CeilQuotient(n: nat, d: nat, q: nat, r: nat)
    requires d > 0 && n == q * d + r && r < d
    ensures CeilOf(n, d) == if r == 0 then q else q + 1
    ensures n > 0 && r == 0 ==> q >= 1
  {
    assert (q + 1) * d == q * d + d;
    if r == 0 {
      DivModUnique(n + d - 1, q, d, d - 1);
    } else {
      DivModUnique(n + d - 1, q + 1, d, r - 1);
    }
  }

  function SplitOf(length: nat, ubFormer: nat, cores: nat): (s: Split)
    requires length > 0 && ubFormer > 0 && cores > 0
  {
    CeilTail(length, ubFormer);
    var ubOuter := CeilOf(length, ubFormer);
    CeilTail(ubOuter, cores);
    var blockFormer := CeilOf(ubOuter, cores);
    Split(CeilOf(ubOuter, blockFormer), blockFormer, TailOf(ubOuter, blockFormer), ubFormer, TailOf(length, ubFormer))
  }

  lemma SplitExact(length: nat, ubFormer: nat, cores: nat)
    requires length > 0 && ubFormer > 0 && cores > 0
    ensures SplitOf(length, ubFormer, cores).ubFormer == ubFormer
    ensures Exact(SplitOf(length, ubFormer, cores), length, cores)
    ensures Balanced(SplitOf(length, ubFormer, cores), cores)
  {
    CeilTail(length, ubFormer);
    var n := CeilOf(length, ubFormer);
    CeilTail(n, cores);
    var b := CeilOf(n, cores);
    CeilTail(n, b);
    CeilDiv(n, cores);
    CeilDivLeast(n, b, cores);
  }

  /** Tiles per core and cores used, when each core gets at most one tile. */
  lemma OneTileEach(length: nat, ubFormer: nat, cores: nat)
    requires length > 0 && ubFormer > 0 && cores > 0 && CeilOf(length, ubFormer) <= cores
    ensures SplitOf(length, ubFormer, cores).blockFormer == 1
    ensures SplitOf(length, ubFormer, cores).blockNum == CeilOf(length, ubFormer)
  {
    var n := CeilOf(length, ubFormer);
    CeilTail(length, ubFormer);
    CeilTail(n, cores);
    CeilDivLeast(n, cores, 1);
  }

  /** A core with two tiles or more means at least half of the cores are busy. */
  lemma HalfIdleMeansOneTile(length: nat, ubFormer: nat, cores: nat)
    requires length > 0 && ubFormer > 0 && cores > 0
    requires SplitOf(length, ubFormer, cores).blockNum < cores / 2
    ensures CeilOf(length, ubFormer) == SplitOf(length, ubFormer, cores).blockNum
    ensures SplitOf(length, ubFormer, cores).blockFormer == 1
  {
    var n := CeilOf(length, ubFormer);
    CeilTail(length, ubFormer);
    CeilTail(n, cores);
    var b := CeilOf(n, cores);
    CeilDiv(n, cores);
    CeilDiv(n, b);
    if b >= 2 {
      BusyCores(n, cores, b, CeilOf(n, b));
    }
  }

  lemma BusyCores(n: nat, cores: nat, b: nat, used: nat)
    requires b >= 2 && (b - 1) * cores < n <= used * b
    ensures cores <= 2 * used
  {
    assert (b - 1) * cores == b * cores - cores;
    assert 2 * (used * b) == (2 * used) * b && (cores - 1) * b == cores * b - b;
    MulMonotone(2, b, cores);
    if 2 * used < cores {
      MulMonotone(2 * used, cores - 1, b);
    }
  }

  /** d elements rounded up to whole cache lines, in elements. */
  function AlignedElements(d: nat, dTypeSize: nat): (n: nat)
    requires dTypeSize > 0
  {
    ((d * dTypeSize + CACHE_LINE - 1) / CACHE_LINE * CACHE_LINE) / dTypeSize
  }

  /** The smallest tile worth a core, in elements. */
  function LowestElements(dTypeSize: nat, aliveNum: nat): (n: nat)
    requires dTypeSize > 0 && aliveNum > 0
  {
    (PER_CORE_MIN_UB_BYTE / aliveNum / CACHE_LINE * CACHE_LINE) / dTypeSize
  }

  /** The tile size chosen for the rebalanced split. */
  function RebalancedFormer(length: nat, ubFormer: nat, cores: nat, dTypeSize: nat, aliveNum: nat): (u: nat)
    requires cores > 0 && dTypeSize > 0 && aliveNum > 0
  {
    var aligned := AlignedElements(length * 2 / cores, dTypeSize);
    var former := if ubFormer > aligned then aligned else ubFormer;
    var lowest := LowestElements(dTypeSize, aliveNum);
    if former < lowest then lowest else former
  }

  /** Rounding bytes up to cache lines and back to elements loses no element. */
  lemma AlignedCovers(d: nat, dTypeSize: nat)
    requires dTypeSize > 0
    ensures AlignedElements(d, dTypeSize) >= d
  {
    var bytes := d * dTypeSize;
    CeilDiv(bytes, CACHE_LINE);
    var lines := (bytes + CACHE_LINE - 1) / CACHE_LINE * CACHE_LINE;
    FloorAtLeast(lines, dTypeSize, d);
  }

  /** Less than one cache line is added. */
  lemma AlignedWithinLine(d: nat, dTypeSize: nat)
    requires dTypeSize > 0
    ensures AlignedElements(d, dTypeSize) * dTypeSize < d * dTypeSize + CACHE_LINE
  {
    var bytes := d * dTypeSize;
    CeilDiv(bytes, CACHE_LINE);
    QuotientBounds((bytes + CACHE_LINE - 1) / CACHE_LINE * CACHE_LINE, dTypeSize);
  }

  /** The smallest tile stays within the byte count the branch condition exceeds, and is
      less than one element and one cache line below it. */
  lemma LowestWithin(dTypeSize: nat, aliveNum: nat)
    requires dTypeSize > 0 && aliveNum > 0
    ensures var lowest := LowestElements(dTypeSize, aliveNum);
      && lowest * dTypeSize * aliveNum <= PER_CORE_MIN_UB_BYTE
      && ((lowest + 1) * dTypeSize + CACHE_LINE) * aliveNum > PER_CORE_MIN_UB_BYTE
  {
    var share := PER_CORE_MIN_UB_BYTE / aliveNum;
    var lines := share / CACHE_LINE * CACHE_LINE;
    QuotientBounds(PER_CORE_MIN_UB_BYTE, aliveNum);
    QuotientBounds(share, CACHE_LINE);
    QuotientBounds(lines, dTypeSize);
    var lowest := lines / dTypeSize;
    MulMonotone(lowest * dTypeSize, share, aliveNum);
    MulMonotone(share + 1, (lowest + 1) * dTypeSize + CACHE_LINE, aliveNum);
  }

  /** Rebalancing leaves a tile of at least one element. */
  predicate TileSurvives(length: nat, cores: nat, dTypeSize: nat, aliveNum: nat) {
    length * 2 >= cores || dTypeSize == 0 || aliveNum == 0 || LowestElements(dTypeSize, aliveNum) >= 1
  }

  /** It does for every element of up to a cache line and up to 64 buffers. */
  lemma UsualTilesSurvive(length: nat, cores: nat, dTypeSize: nat, aliveNum: nat)
    requires dTypeSize <= CACHE_LINE && aliveNum <= PER_CORE_MIN_UB_BYTE / CACHE_LINE
    ensures TileSurvives(length, cores, dTypeSize, aliveNum)
  {
    if dTypeSize > 0 && aliveNum > 0 {
      LowestPositive(dTypeSize, aliveNum);
    }
  }

  lemma LowestPositive(dTypeSize: nat, aliveNum: nat)
    requires 0 < dTypeSize <= CACHE_LINE && 0 < aliveNum <= PER_CORE_MIN_UB_BYTE / CACHE_LINE
    ensures LowestElements(dTypeSize, aliveNum) >= 1
  {
    var share := PER_CORE_MIN_UB_BYTE / aliveNum;
    FloorAtLeast(PER_CORE_MIN_UB_BYTE, aliveNum, CACHE_LINE);
    FloorAtLeast(share, CACHE_LINE, 1);
    FloorAtLeast(share / CACHE_LINE * CACHE_LINE, dTypeSize, 1);
  }

  /** Twice the fair share per core is enough for one tile per core. */
  lemma FairShareCovers(length: nat, cores: nat, u: nat)
    requires length > 0 && cores > 0 && u >= 1 && u >= length * 2 / cores
    ensures CeilOf(length, u) <= cores
  {
    var d := length * 2 / cores;
    assert length * 2 == d * cores + length * 2 % cores;
    CeilDivLeast(length, u, cores) by {
      MulMonotone(d, u, cores);
      assert cores * u == u * cores;
      if d >= 1 {
        MulMonotone(1, d, cores);
      } else {
        MulMonotone(1, u, cores);
      }
    }
  }

  /** Smaller tiles never need fewer cores. */
  lemma CeilAntitone(n: nat, d: nat, e: nat)
    requires 0 < d <= e
    ensures CeilOf(n, d) >= CeilOf(n, e)
  {
    CeilDiv(n, d);
    MulMonotone(d, e, CeilOf(n, d));
    assert CeilOf(n, d) * d == d * CeilOf(n, d) && CeilOf(n, d) * e == e * CeilOf(n, d);
    CeilDivLeast(n, e, CeilOf(n, d));
  }

  /** The rebalancing branch is taken when fewer than half of the cores are used
      and a tile exceeds the minimum byte count. */
  predicate Rebalances(length: nat, ubFormer: nat, cores: nat, dTypeSize: nat, aliveNum: nat)
    requires length > 0 && ubFormer > 0 && cores > 0
  {
    SplitOf(length, ubFormer, cores).blockNum < cores / 2 && ubFormer * dTypeSize * aliveNum > PER_CORE_MIN_UB_BYTE
  }

  /** Tiles of u elements are not larger than it takes: at least half of the cores have one,
      or the buffers hold no more than the minimum byte count, or the tile is twice the fair
      share of a core up to a cache line. */
  ghost predicate SmallEnough(u: nat, blockNum: nat, length: nat, cores: nat, dTypeSize: nat, aliveNum: nat)
    requires cores > 0
  {
    || blockNum >= cores / 2
    || u * dTypeSize * aliveNum <= PER_CORE_MIN_UB_BYTE
    || u * dTypeSize < length * 2 / cores * dTypeSize + CACHE_LINE
  }

  /** Tiles of u elements are not cut below ubFormer without need: fewer than half of the
      cores had one and a tile filled more than the minimum byte count. They are not cut
      below twice the fair share of a core, nor below the minimum byte count by as much as
      one element and one cache line in every buffer. */
  ghost predicate LargeEnough(u: nat, ubFormer: nat, length: nat, cores: nat, dTypeSize: nat, aliveNum: nat)
    requires cores > 0
  {
    u < ubFormer ==>
      && length <= (cores / 2 - 1) * ubFormer && ubFormer * dTypeSize * aliveNum > PER_CORE_MIN_UB_BYTE
      && u >= length * 2 / cores && ((u + 1) * dTypeSize + CACHE_LINE) * aliveNum > PER_CORE_MIN_UB_BYTE
  }

  /** The new tile size meets both. */
  lemma FormerSized(length: nat, ubFormer: nat, cores: nat, dTypeSize: nat, aliveNum: nat, blockNum: nat)
    requires length > 0 && ubFormer > 0 && cores > 0
    requires Rebalances(length, ubFormer, cores, dTypeSize, aliveNum) && dTypeSize > 0 && aliveNum > 0
    ensures var u := RebalancedFormer(length, ubFormer, cores, dTypeSize, aliveNum);
      && SmallEnough(u, blockNum, length, cores, dTypeSize, aliveNum)
      && LargeEnough(u, ubFormer, length, cores, dTypeSize, aliveNum)
  {
    hide SplitOf, CeilOf, AlignedElements, LowestElements;
    var u := RebalancedFormer(length, ubFormer, cores, dTypeSize, aliveNum);
    var lowest := LowestElements(dTypeSize, aliveNum);
    var d := length * 2 / cores;
    var aligned := AlignedElements(d, dTypeSize);
    FormerBounds(length, ubFormer, cores, dTypeSize, aliveNum);
    LowestWithin(dTypeSize, aliveNum);
    AlignedWithinLine(d, dTypeSize);
    if u != lowest {
      MulMonotone(u, aligned, dTypeSize);
    }
    MulMonotone(lowest + 1, u + 1, dTypeSize);
    MulMonotone((lowest + 1) * dTypeSize + CACHE_LINE, (u + 1) * dTypeSize + CACHE_LINE, aliveNum);
    HalfIdleMeansOneTile(length, ubFormer, cores);
    CeilTail(length, ubFormer);
    FewCores(length, ubFormer, cores);
  }

  lemma FewCores(length: nat, ubFormer: nat, cores: nat)
    requires length > 0 && ubFormer > 0 && CeilOf(length, ubFormer) < cores / 2
    ensures length <= (cores / 2 - 1) * ubFormer
  {
    CeilDiv(length, ubFormer);
    MulMonotone(CeilOf(length, ubFormer), cores / 2 - 1, ubFormer);
  }

  /** Rebalancing starts from one tile per core. Exactly when a tile survives, it also
      ends with one tile per core: the tile never grows, stays within the buffer it
      was sized for, and no core that was used is given up. Otherwise the new tile
      size is zero, and the code divides by it. */
  lemma RebalancingSound(length: nat, ubFormer: nat, cores: nat, dTypeSize: nat, aliveNum: nat)
    requires length > 0 && ubFormer > 0 && cores > 0
    requires Rebalances(length, ubFormer, cores, dTypeSize, aliveNum)
    ensures dTypeSize > 0 && aliveNum > 0 && SplitOf(length, ubFormer, cores).blockFormer == 1
    ensures var u := RebalancedFormer(length, ubFormer, cores, dTypeSize, aliveNum);
      if !TileSurvives(length, cores, dTypeSize, aliveNum) then u == 0 else
        && 1 <= u <= ubFormer
        && u * dTypeSize * aliveNum <= ubFormer * dTypeSize * aliveNum
        && SplitOf(length, u, cores).blockFormer == 1
        && SplitOf(length, ubFormer, cores).blockNum <= SplitOf(length, u, cores).blockNum <= cores
        && SmallEnough(u, SplitOf(length, u, cores).blockNum, length, cores, dTypeSize, aliveNum)
        && LargeEnough(u, ubFormer, length, cores, dTypeSize, aliveNum)
  {
    hide SplitOf, CeilOf, RebalancedFormer, TileSurvives, SmallEnough, LargeEnough;
    ProductPositive(ubFormer, dTypeSize, aliveNum);
    var u := RebalancedFormer(length, ubFormer, cores, dTypeSize, aliveNum);
    FormerBounds(length, ubFormer, cores, dTypeSize, aliveNum);
    HalfIdleMeansOneTile(length, ubFormer, cores);
    if u >= 1 {
      FormerSized(length, ubFormer, cores, dTypeSize, aliveNum, SplitOf(length, u, cores).blockNum);
      ScaleMonotone(u, ubFormer, dTypeSize, aliveNum);
      CeilAntitone(length, u, ubFormer);
      if u < ubFormer {
        FairShareCovers(length, cores, u);
      }
      OneTileEach(length, u, cores);
    }
  }

  lemma ProductPositive(a: nat, b: nat, c: nat)
    requires a * b * c > 0
    ensures b > 0 && c > 0
  {}

  /** One element of one byte, four cores and 65 buffers of 128 bytes: the tile size is
      one the host computes, and the rebalanced tile is empty. */
  lemma EmptyTileExample()
    ensures UbFormer(65, 65 * CACHE_LINE, 1) == CACHE_LINE
    ensures Rebalances(1, CACHE_LINE, 4, 1, 65) && RebalancedFormer(1, CACHE_LINE, 4, 1, 65) == 0
  {}

  lemma ScaleMonotone(a: nat, b: nat, d: nat, n: nat)
    requires a <= b
    ensures a * d * n <= b * d * n
  {}

  /** The new tile size is not larger than the old one; if smaller, at least twice the
      fair share of a core; and zero exactly when no tile survives. */
  lemma FormerBounds(length: nat, ubFormer: nat, cores: nat, dTypeSize: nat, aliveNum: nat)
    requires cores > 0 && dTypeSize > 0 && aliveNum > 0
    requires ubFormer * dTypeSize * aliveNum > PER_CORE_MIN_UB_BYTE
    ensures var u := RebalancedFormer(length, ubFormer, cores, dTypeSize, aliveNum);
      && u <= ubFormer && (u == ubFormer || u >= length * 2 / cores)
      && (u >= 1 <==> TileSurvives(length, cores, dTypeSize, aliveNum))
  {
    hide AlignedElements, LowestElements;
    var lowest, d := LowestElements(dTypeSize, aliveNum), length * 2 / cores;
    AlignedCovers(d, dTypeSize);
    LowestWithin(dTypeSize, aliveNum);
    if lowest >= ubFormer {
      ScaleMonotone(ubFormer, lowest, dTypeSize, aliveNum);
    }
    if length * 2 >= cores {
      FloorAtLeast(length * 2, cores, 1);
    } else {
      DivModUnique(length * 2, 0, cores, length * 2);
      NothingAligned(dTypeSize);
    }
  }

  lemma NothingAligned(dTypeSize: nat)
    requires dTypeSize > 0
    ensures AlignedElements(0, dTypeSize) == 0
  {}

  /** The host never divides by an empty tile: it does not rebalance, or a tile survives. */
  predicate NoEmptyTile(length: nat, ubFormer: nat, cores: nat, dTypeSize: nat, aliveNum: nat)
    requires length > 0 && ubFormer > 0 && cores > 0
  {
    Rebalances(length, ubFormer, cores, dTypeSize, aliveNum) ==> TileSurvives(length, cores, dTypeSize, aliveNum)
  }

  /** The tile size the host settles on. */
  function FinalFormer(length: nat, ubFormer: nat, cores: nat, dTypeSize: nat, aliveNum: nat): (u: nat)
    requires length > 0 && ubFormer > 0 && cores > 0
    requires NoEmptyTile(length, ubFormer, cores, dTypeSize, aliveNum)
    ensures 1 <= u <= ubFormer
  {
    if Rebalances(length, ubFormer, cores, dTypeSize, aliveNum) then
      ProductPositive(ubFormer, dTypeSize, aliveNum);
      FormerBounds(length, ubFormer, cores, dTypeSize, aliveNum);
      RebalancedFormer(length, ubFormer, cores, dTypeSize, aliveNum)
    else ubFormer
  }

  // ----- the tiling steps -----

  /** The buffer share of a tensor in whole cache lines. */
  function AlignedShare(aliveNum: nat, actualUbSize: int): (b: int)
    requires aliveNum > 0
  {
    TruncDiv(TruncDiv(actualUbSize, aliveNum), CACHE_LINE) * CACHE_LINE
  }

  /** The same in elements. */
  function UbFormer(aliveNum: nat, actualUbSize: int, dTypeSize: nat): (u: int)
    requires aliveNum > 0 && dTypeSize > 0
  {
    TruncDiv(AlignedShare(aliveNum, actualUbSize), dTypeSize)
  }

  /** For a non-negative size: no tile exactly if no element fits, otherwise the largest
      cache-line aligned one. */
  lemma FormerFits(aliveNum: nat, actualUbSize: nat, dTypeSize: nat)
    requires aliveNum > 0 && dTypeSize > 0
    ensures var u, share := UbFormer(aliveNum, actualUbSize, dTypeSize), AlignedShare(aliveNum, actualUbSize);
      && u >= 0 && (u == 0 <==> share < dTypeSize)
      && u * dTypeSize <= share < (u + 1) * dTypeSize
      && u * dTypeSize * aliveNum <= actualUbSize
      && share % CACHE_LINE == 0 && share * aliveNum <= actualUbSize < (share + CACHE_LINE) * aliveNum
  {
    hide UbFormer, AlignedShare;
    var bytes, share := actualUbSize / aliveNum, AlignedShare(aliveNum, actualUbSize);
    ShareBounds(aliveNum, actualUbSize);
    FormerIs(aliveNum, actualUbSize, dTypeSize);
    var u := share / dTypeSize;
    QuotientBounds(share, dTypeSize);
    QuotientBounds(actualUbSize, aliveNum);
    MulMonotone(u * dTypeSize, bytes, aliveNum);
    MulMonotone(share, bytes, aliveNum);
    MulMonotone(bytes + 1, share + CACHE_LINE, aliveNum);
    if u >= 1 {
      MulMonotone(1, u, dTypeSize);
    }
  }

  lemma ShareBounds(aliveNum: nat, actualUbSize: nat)
    requires aliveNum > 0
    ensures 0 <= AlignedShare(aliveNum, actualUbSize) <= actualUbSize / aliveNum
    ensures AlignedShare(aliveNum, actualUbSize) % CACHE_LINE == 0
    ensures actualUbSize / aliveNum + 1 <= AlignedShare(aliveNum, actualUbSize) + CACHE_LINE
  {}

  lemma FormerIs(aliveNum: nat, actualUbSize: nat, dTypeSize: nat)
    requires aliveNum > 0 && dTypeSize > 0
    ensures UbFormer(aliveNum, actualUbSize, dTypeSize) == AlignedShare(aliveNum, actualUbSize) / dTypeSize >= 0
  {
    ShareBounds(aliveNum, actualUbSize);
  }

  lemma QuotientBounds(n: nat, d: nat)
    requires d > 0
    ensures n / d >= 0 && n / d * d <= n < (n / d + 1) * d
  {
    assert (n / d + 1) * d == n / d * d + d;
  }

  /** A missing buffer of some size gives the tile of that size with the sign changed, so
      the host accepts a negative tile exactly if that size would hold an element. */
  lemma NegativeTileIff(aliveNum: nat, actualUbSize: int, dTypeSize: nat)
    requires aliveNum > 0 && dTypeSize > 0
    ensures UbFormer(aliveNum, -actualUbSize, dTypeSize) == -UbFormer(aliveNum, actualUbSize, dTypeSize)
    ensures UbFormer(aliveNum, actualUbSize, dTypeSize) < 0 <==>
      actualUbSize < 0 && AlignedShare(aliveNum, -actualUbSize) >= dTypeSize
  {
    hide UbFormer, AlignedShare;
    MirroredFormer(aliveNum, actualUbSize, dTypeSize);
    if actualUbSize < 0 {
      FormerFits(aliveNum, -actualUbSize, dTypeSize);
    } else {
      FormerFits(aliveNum, actualUbSize, dTypeSize);
    }
  }

  lemma MirroredFormer(aliveNum: nat, actualUbSize: int, dTypeSize: nat)
    requires aliveNum > 0 && dTypeSize > 0
    ensures UbFormer(aliveNum, -actualUbSize, dTypeSize) == -UbFormer(aliveNum, actualUbSize, dTypeSize)
  {
    hide TruncDiv;
    Mirrored(actualUbSize, aliveNum);
    Mirrored(TruncDiv(actualUbSize, aliveNum), CACHE_LINE);
    Mirrored(AlignedShare(aliveNum, actualUbSize), dTypeSize);
  }

  lemma Mirrored(n: int, d: int)
    requires d > 0
    ensures TruncDiv(-n, d) == -TruncDiv(n, d)
  {}

  /** The sign of the tile, and what a positive one satisfies. */
  lemma FormerSign(aliveNum: nat, actualUbSize: int, dTypeSize: nat)
    requires aliveNum > 0 && dTypeSize > 0
    ensures var u := UbFormer(aliveNum, actualUbSize, dTypeSize);
      if actualUbSize < 0 then u <= 0 else
        && u >= 0 && u * dTypeSize * aliveNum <= actualUbSize
        && (u + 1) * dTypeSize > AlignedShare(aliveNum, actualUbSize)
        && ((u + 1) * dTypeSize + CACHE_LINE) * aliveNum > actualUbSize
  {
    hide UbFormer, AlignedShare;
    if actualUbSize < 0 {
      FormerFits(aliveNum, -actualUbSize, dTypeSize);
      MirroredFormer(aliveNum, actualUbSize, dTypeSize);
    } else {
      FormerFits(aliveNum, actualUbSize, dTypeSize);
      MulMonotone(AlignedShare(aliveNum, actualUbSize) + CACHE_LINE,
                  (UbFormer(aliveNum, actualUbSize, dTypeSize) + 1) * dTypeSize + CACHE_LINE, aliveNum);
    }
  }

  /** Elements per tile for a buffer shared by aliveNum tensors. The size left over for
      the buffers may be negative, and nothing rejects a negative tile. */
  method GetOneDimUBFormer(aliveNum: nat, actualUbSize: int, dTypeSize: nat) returns (r: Result<int>)
    ensures r.Err? <==> aliveNum == 0 || dTypeSize == 0 || UbFormer(aliveNum, actualUbSize, dTypeSize) == 0
    ensures r.Ok? ==> r.value == UbFormer(aliveNum, actualUbSize, dTypeSize)
    ensures r.Ok? ==>
      if actualUbSize < 0 then r.value < 0 else r.value > 0 && r.value * dTypeSize * aliveNum <= actualUbSize
    ensures r.Ok? && actualUbSize >= 0 ==> (r.value + 1) * dTypeSize > AlignedShare(aliveNum, actualUbSize)
    ensures r.Ok? && actualUbSize >= 0 ==> ((r.value + 1) * dTypeSize + CACHE_LINE) * aliveNum > actualUbSize
  {
    if aliveNum == 0 || dTypeSize == 0 {
      return Err;
    }
    FormerSign(aliveNum, actualUbSize, dTypeSize);
    var ubFormerByte := TruncDiv(actualUbSize, aliveNum);
    var ubFormerByteFloorAlign := TruncDiv(ubFormerByte, CACHE_LINE) * CACHE_LINE;
    var ubFormer := TruncDiv(ubFormerByteFloorAlign, dTypeSize);
    if ubFormer == 0 {
      return Err;
    }
    return Ok(ubFormer);
  }

  /** One thousand missing bytes, one buffer of one-byte elements: a tile of -896 is
      accepted. */
  lemma NegativeTileExample()
    ensures UbFormer(1, -1000, 1) == -896
  {}

  /** Splits the length, and again with smaller tiles if most cores would idle. */
  method DoOneDimFormerTiling(aliveNum: nat, dTypeSize: nat, outDims: seq<nat>, ubFormer: nat, coreNum: nat)
      returns (r: Result<Split>)
    requires ubFormer > 0 && coreNum > 0
    requires aliveNum > 0 && outDims != [] && outDims[0] > 0 ==>
      NoEmptyTile(outDims[0], ubFormer, coreNum, dTypeSize, aliveNum)
    ensures r.Err? <==> aliveNum == 0 || outDims == [] || outDims[0] == 0
    ensures r.Ok? ==> Exact(r.value, outDims[0], coreNum) && Balanced(r.value, coreNum) && r.value.ubFormer <= ubFormer
    ensures r.Ok? ==> SmallEnough(r.value.ubFormer, r.value.blockNum, outDims[0], coreNum, dTypeSize, aliveNum)
    ensures r.Ok? ==> LargeEnough(r.value.ubFormer, ubFormer, outDims[0], coreNum, dTypeSize, aliveNum)
    ensures r.Ok? ==>
      r.value == SplitOf(outDims[0], FinalFormer(outDims[0], ubFormer, coreNum, dTypeSize, aliveNum), coreNum)
  {
    if aliveNum == 0 || |outDims| == 0 || outDims[0] == 0 {
      return Err;
    }
    hide SplitOf, Exact, RebalancedFormer, TileSurvives, Balanced;
    var dimLength := outDims[0];
    var s := SplitOf(dimLength, ubFormer, coreNum);
    SplitExact(dimLength, ubFormer, coreNum);
    if s.blockNum < coreNum / 2 && ubFormer * dTypeSize * aliveNum > PER_CORE_MIN_UB_BYTE {
      ProductPositive(ubFormer, dTypeSize, aliveNum);
      FormerBounds(dimLength, ubFormer, coreNum, dTypeSize, aliveNum);
      var smaller := RebalancedFormer(dimLength, ubFormer, coreNum, dTypeSize, aliveNum);
      SplitExact(dimLength, smaller, coreNum);
      s := SplitOf(dimLength, smaller, coreNum);
      FormerSized(dimLength, ubFormer, coreNum, dTypeSize, aliveNum, s.blockNum);
    }
    return Ok(s);
  }

  // ----- the scalar flag -----

  /** flag & (1 << i), for one bit. */
  predicate BitSet(flag: nat, i: nat) {
    (flag / Pow2(i)) % 2 == 1
  }

  /** The sum of the bits of the inputs of length one. */
  function FlagOf(lengths: seq<nat>): (f: nat) {
    if lengths == [] then 0 else
      var n := |lengths| - 1;
      FlagOf(lengths[..n]) + Pow2(n) * if lengths[n] == 1 then 1 else 0
  }

  lemma {:induction false} FlagBound(lengths: seq<nat>)
    ensures FlagOf(lengths) < Pow2(|lengths|)
  {
    if lengths != [] {
      FlagBound(lengths[..|lengths| - 1]);
    }
  }

  /** A higher bit does not disturb a lower one. */
  lemma HigherBit(f: nat, n: nat, i: nat)
    requires i < n
    ensures BitSet(f + Pow2(n), i) == BitSet(f, i)
  {
    Pow2Split(i, n);
    EvenShift(f, Pow2(i), Pow2(n - i - 1));
  }

  lemma EvenShift(f: nat, p: nat, half: nat)
    requires p > 0
    ensures ((f + 2 * half * p) / p) % 2 == (f / p) % 2
  {
    var q := f / p;
    assert (q + 2 * half) * p == q * p + 2 * half * p;
    DivModUnique(f + 2 * half * p, q + 2 * half, p, f % p);
  }

  lemma {:induction false} Pow2Split(i: nat, n: nat)
    requires i < n
    ensures Pow2(n) == 2 * Pow2(n - i - 1) * Pow2(i)
  {
    if i > 0 {
      Pow2Split(i - 1, n - 1);
      DoubledProduct(Pow2(n - i - 1), Pow2(i - 1));
    }
  }

  lemma DoubledProduct(a: nat, b: nat)
    ensures 2 * (2 * a * b) == 2 * a * (2 * b)
  {}

  /** The flag decodes bit by bit to "the input has length one". */
  lemma {:induction false} FlagDecodes(lengths: seq<nat>, i: nat)
    ensures BitSet(FlagOf(lengths), i) <==> i < |lengths| && lengths[i] == 1
  {
    if lengths == [] {
      DivModUnique(0, 0, Pow2(i), 0);
    } else {
      var n := |lengths| - 1;
      var f := FlagOf(lengths[..n]);
      FlagDecodes(lengths[..n], i);
      FlagBound(lengths[..n]);
      if i < n {
        HigherBit(f, n, i);
      } else if i == n {
        DivModUnique(f, 0, Pow2(n), f);
        DivModUnique(f + Pow2(n), 1, Pow2(n), f);
      } else {
        FlagBound(lengths);
        Pow2Monotone(n + 1, i);
        DivModUnique(FlagOf(lengths), 0, Pow2(i), FlagOf(lengths));
      }
    }
  }

  lemma {:induction false} Pow2Monotone(a: nat, b: nat)
    requires a <= b
    ensures Pow2(a) <= Pow2(b)
  {
    if a < b {
      Pow2Monotone(a, b - 1);
    }
  }

  /** dims lists the inputs and, last, the output; only inputs get a bit. */
  method GetOneDimScalarFlag(dims: seq<nat>) returns (flag: nat)
    requires dims != []
    ensures flag == FlagOf(dims[..|dims| - 1])
    ensures forall i: nat :: BitSet(flag, i) <==> i < |dims| - 1 && dims[i] == 1
  {
    flag := 0;
    var i := 0;
    while i < |dims| - 1
      invariant 0 <= i <= |dims| - 1 && flag == FlagOf(dims[..i])
    {
      var isScalar := if dims[i] == 1 then 1 else 0;
      assert dims[..i + 1][..i] == dims[..i];
      flag := flag + Pow2(i) * isScalar;
      i := i + 1;
    }
    forall k: nat ensures BitSet(flag, k) <==> k < |dims| - 1 && dims[k] == 1 {
      FlagDecodes(dims[..|dims| - 1], k);
    }
  }
}
