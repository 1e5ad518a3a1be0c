/**
 * Planning helpers of the Python MCTS scripts: grid coordinates, Manhattan
 * distance, the bounded experience `Database` (a ring buffer) and the slicing
 * helpers `symmetric_remove` and `is_odd`.
 *
 * Python integers are unbounded, so `int` is exact; `//` is Python's floor
 * division and slices follow Python's clamping rules, both written out below.
 */
module PlanningHelpers {
  import opened Wrappers
  import opened Arith

  /** The Python exceptions the helpers raise. */
  datatype HelperError = ZeroDivisionError | IndexError

  datatype Coordinate = Coordinate(row: int, column: int)

  /** Python's `a // b`: the floor of a / b, for either sign of b. */
  function FloorDiv(a: int, b: int): (q: int)
    requires b != 0
    ensures b > 0 ==> b * q <= a < b * q + b
    ensures b < 0 ==> b * q >= a > b * q + b
  {
    if b > 0 then a / b else (-a) / (-b)
  }

  /** `graph_element_to_coordinate`: row-major location to (row, column). */
  function GraphElementToCoordinate(location: int, sizeX: int): (r: Result<Coordinate, HelperError>)
    ensures r.Failure? <==> sizeX == 0
    ensures r.Failure? ==> r.error == ZeroDivisionError
    ensures r.Success? ==> r.value.row * sizeX + r.value.column == location
    ensures r.Success? && sizeX > 0 ==> 0 <= r.value.column < sizeX
    ensures r.Success? && sizeX < 0 ==> sizeX < r.value.column <= 0
  {
    if sizeX == 0 then Failure(ZeroDivisionError)
    else
      var row := FloorDiv(location, sizeX);
      Success(Coordinate(row, location - row * sizeX))
  }

  function Abs(x: int): int {
    if x < 0 then -x else x
  }

  /** `distance`: Manhattan distance between two row-major locations. */
  function Distance(origin: int, destination: int, sizeX: int): (r: Result<int, HelperError>)
    ensures r.Failure? <==> sizeX == 0
    ensures r.Failure? ==> r.error == ZeroDivisionError
    ensures r.Success? ==> r.value >= 0
  {
    if sizeX == 0 then Failure(ZeroDivisionError)
    else
      var o := GraphElementToCoordinate(origin, sizeX).value;
      var d := GraphElementToCoordinate(destination, sizeX).value;
      var horizontal := Abs(o.row - d.row);
      var vertical := Abs(o.column - d.column);
      Success(horizontal + vertical)
  }

  /** Floor division by a non-zero width pins the coordinate down uniquely. */
  lemma CoordinateDeterminesLocation(a: int, b: int, sizeX: int)
    requires sizeX != 0
    ensures GraphElementToCoordinate(a, sizeX) == GraphElementToCoordinate(b, sizeX) <==> a == b
  {
  }

  lemma DistanceSymmetric(origin: int, destination: int, sizeX: int)
    ensures Distance(origin, destination, sizeX) == Distance(destination, origin, sizeX)
  {
  }

  lemma DistanceZeroIffSameLocation(origin: int, destination: int, sizeX: int)
    requires sizeX != 0
    ensures Distance(origin, destination, sizeX) == Success(0) <==> origin == destination
  {
    var o := GraphElementToCoordinate(origin, sizeX).value;
    var d := GraphElementToCoordinate(destination, sizeX).value;
    if Distance(origin, destination, sizeX) == Success(0) {
      assert o.row == d.row && o.column == d.column;
      calc {
        origin;
        o.row * sizeX + o.column;
        d.row * sizeX + d.column;
        destination;
      }
    }
  }

  lemma DistanceTriangle(a: int, b: int, c: int, sizeX: int)
    requires sizeX != 0
    ensures Distance(a, c, sizeX).value <= Distance(a, b, sizeX).value + Distance(b, c, sizeX).value
  {
  }

  // ---------------------------------------------------------------------------
  // Modular arithmetic used by the ring buffer

  lemma ModSucc(a: nat, m: int)
    requires m > 0
    ensures (a + 1) % m == if a % m == m - 1 then 0 else a % m + 1
  {
    var q := a / m;
    var r := a % m;
    if r == m - 1 {
      DivModUnique(a + 1, m, q + 1, 0);
    } else {
      DivModUnique(a + 1, m, q, r + 1);
    }
  }

  /**
   * History index of the entry that slot j of a full buffer of size m holds
   * after h stores: the last t < h with t congruent to j modulo m.
   */
  function Latest(h: nat, m: nat, j: nat): (t: nat)
    requires m >= 1 && j < h
    ensures j <= t < h
  {
    (h - 1) - ((h - 1 - j) % m)
  }

  lemma LatestBeforeWrap(h: nat, m: nat, j: nat)
    requires 1 <= m && j < h <= m
    ensures Latest(h, m, j) == j
  {
    DivModUnique(h - 1 - j, m, 0, h - 1 - j);
  }

  lemma {:induction false} LatestAfterStore(h: nat, m: nat, j: nat)
    requires 1 <= m <= h && j < m
    ensures j == h % m ==> Latest(h + 1, m, j) == h
    ensures j != h % m ==> Latest(h + 1, m, j) == Latest(h, m, j)
  {
    var a: nat := h - 1 - j;
    ModSucc(a, m);
    if j == h % m {
      DivModUnique(h - j, m, h / m, 0);
    } else if a % m == m - 1 {
      // then h - j would be a multiple of m, so h % m would equal j
      var t := (h - j) / m;
      assert (h - j) % m == 0;
      assert h - j == t * m;
      DivModUnique(h, m, t, j);
      assert false;
    }
  }

  // ---------------------------------------------------------------------------
  // Database

  /** The entry `store_from_array` builds for index i: `[arg[i] for arg in args]`. */
  function Column<Item>(args: seq<seq<Item>>, i: nat): (entry: seq<Item>)
    requires forall k :: 0 <= k < |args| ==> i < |args[k]|
    ensures |entry| == |args|
    ensures forall k :: 0 <= k < |args| ==> entry[k] == args[k][i]
  {
    seq(|args|, k requires 0 <= k < |args| => args[k][i])
  }

  /** The length of the shortest array of `args`. */
  function MinLength<Item>(args: seq<seq<Item>>): (m: nat)
    requires |args| >= 1
    ensures forall k :: 0 <= k < |args| ==> m <= |args[k]|
    ensures exists k :: 0 <= k < |args| && |args[k]| == m
  {
    if |args| == 1 then |args[0]|
    else
      var rest := MinLength(args[1..]);
      assert forall k :: 1 <= k < |args| ==> args[k] == args[1..][k - 1];
      if |args[0]| <= rest then |args[0]| else rest
  }

  /**
   * How many entries `store_from_array` stores before it stops: every row
   * index of `args[0]` that all arrays have, and none without any array.
   */
  function StoredCount<Item>(args: seq<seq<Item>>): (n: nat)
    ensures |args| == 0 ==> n == 0
    ensures |args| >= 1 ==> n <= |args[0]| && forall k :: 0 <= k < |args| ==> n <= |args[k]|
    ensures |args| >= 1 && (forall k :: 0 <= k < |args| ==> |args[0]| <= |args[k]|) ==> n == |args[0]|
    ensures |args| >= 1 && n < |args[0]| ==> exists k :: 0 <= k < |args| && |args[k]| == n
  {
    if |args| == 0 then 0 else MinLength(args)
  }

  /** The first `n` entries `store_from_array` builds, in order. */
  function Rows<Item>(args: seq<seq<Item>>, n: nat): (rows: seq<seq<Item>>)
    requires forall k :: 0 <= k < |args| ==> n <= |args[k]|
    ensures |rows| == n
    ensures forall i :: 0 <= i < n ==> rows[i] == Column(args, i)
  {
    seq(n, i requires 0 <= i < n => Column(args, i))
  }

  /** Slot j holds history entry Latest(|hist|, m, j), for every filled slot. */
  ghost predicate SlotsMatch<Item>(exp: seq<seq<Item>>, hist: seq<seq<Item>>, m: nat)
    requires m >= 1 && |exp| <= |hist|
  {
    forall j :: 0 <= j < |exp| ==> exp[j] == hist[Latest(|hist|, m, j)]
  }

  lemma AppendKeepsSlots<Item>(exp: seq<seq<Item>>, hist: seq<seq<Item>>, e: seq<Item>, m: nat)
    requires 1 <= m && |exp| == |hist| < m && SlotsMatch(exp, hist, m)
    ensures SlotsMatch(exp + [e], hist + [e], m)
    ensures |hist| + 1 == m ==> (|hist| + 1) % m == 0
  {
    var exp', hist' := exp + [e], hist + [e];
    forall j | 0 <= j < |exp'|
      ensures exp'[j] == hist'[Latest(|hist'|, m, j)]
    {
      LatestBeforeWrap(|hist| + 1, m, j);
      if j < |hist| {
        LatestBeforeWrap(|hist|, m, j);
      }
    }
  }

  lemma OverwriteKeepsSlots<Item>(exp: seq<seq<Item>>, hist: seq<seq<Item>>, e: seq<Item>, m: nat)
    requires 1 <= m <= |hist| && |exp| == m && SlotsMatch(exp, hist, m)
    ensures SlotsMatch(exp[|hist| % m := e], hist + [e], m)
  {
    var exp', hist' := exp[|hist| % m := e], hist + [e];
    forall j | 0 <= j < |exp'|
      ensures exp'[j] == hist'[Latest(|hist'|, m, j)]
    {
      LatestAfterStore(|hist|, m, j);
    }
  }

  /**
   * The experience replay buffer. `history` (ghost) is every entry stored
   * since the last `clear`; `Valid` says the buffer holds exactly the last
   * `max_size` of them, entry t of the history in slot t % max_size, and that
   * `insert_index` is the slot the next store overwrites.
   */
  class Database<Item> {
    var maxSize: int
    var batchSize: int
    var experience: seq<seq<Item>>
    var insertIndex: int
    var size: int
    ghost var history: seq<seq<Item>>

    ghost predicate Valid()
      reads this
    {
      && 1 <= maxSize
      && size == |experience|
      && size == (if |history| < maxSize then |history| else maxSize)
      && insertIndex == (if |history| < maxSize then 0 else |history| % maxSize)
      && SlotsMatch(experience, history, maxSize)
    }

    /** `__init__`; a `max_size` below 1 would make the first `store` index an empty list. */
    constructor (maxSize: int, batchSize: int)
      requires maxSize >= 1
      ensures Valid()
      ensures this.maxSize == maxSize && this.batchSize == batchSize
      ensures experience == [] && size == 0 && insertIndex == 0 && history == []
    {
      this.maxSize := maxSize;
      this.batchSize := batchSize;
      experience := [];
      insertIndex := 0;
      size := 0;
      history := [];
    }

    /** `clear`: forget every entry. */
    method Clear()
      requires Valid()
      modifies this
      ensures Valid()
      ensures maxSize == old(maxSize) && batchSize == old(batchSize)
      ensures experience == [] && size == 0 && insertIndex == 0 && history == []
    {
      experience := [];
      insertIndex := 0;
      size := 0;
      history := [];
    }

    /** `store`: append while there is room, then overwrite the oldest slot and advance the insert index. */
    method Store(entry: seq<Item>)
      requires Valid()
      modifies this
      ensures Valid()
      ensures maxSize == old(maxSize) && batchSize == old(batchSize)
      ensures history == old(history) + [entry]
      ensures old(size) < maxSize ==>
        experience == old(experience) + [entry] && size == old(size) + 1 && insertIndex == old(insertIndex)
      ensures old(size) >= maxSize ==>
        && experience == old(experience)[old(insertIndex) := entry]
        && size == old(size)
        && insertIndex == (if old(insertIndex) + 1 >= size then 0 else old(insertIndex) + 1)
      ensures size <= maxSize && (size == maxSize ==> 0 <= insertIndex < size)
    {
      ghost var h := |history|;
      if size < maxSize {
        AppendKeepsSlots(experience, history, entry, maxSize);
        experience := experience + [entry];
        size := size + 1;
        history := history + [entry];
      } else {
        OverwriteKeepsSlots(experience, history, entry, maxSize);
        ModSucc(h, maxSize);
        experience := experience[insertIndex := entry];
        insertIndex := insertIndex + 1;
        if insertIndex >= size {
          insertIndex := 0;
        }
        history := history + [entry];
      }
    }

    /**
     * `store_from_array`: store `[arg[i] for arg in args]` for each row index
     * `i` of `args[0]`. With no arrays, `args[0]` raises IndexError; an array
     * shorter than `args[0]` raises it at its first missing index, after the
     * earlier entries are stored.
     */
    method StoreFromArray(args: seq<seq<Item>>) returns (r: Result<(), HelperError>)
      requires Valid()
      modifies this
      ensures Valid()
      ensures maxSize == old(maxSize) && batchSize == old(batchSize)
      ensures r.Success? <==> |args| >= 1 && forall k :: 0 <= k < |args| ==> |args[0]| <= |args[k]|
      ensures r.Failure? ==> r.error == IndexError
      ensures history == old(history) + Rows(args, StoredCount(args))
    {
      if |args| == 0 {
        return Failure(IndexError);
      }
      var i := 0;
      while i < |args[0]|
        invariant 0 <= i <= |args[0]|
        invariant forall k :: 0 <= k < |args| ==> i <= |args[k]|
        invariant Valid()
        invariant maxSize == old(maxSize) && batchSize == old(batchSize)
        invariant history == old(history) + Rows(args, i)
      {
        var entry: seq<Item> := [];
        var k := 0;
        while k < |args|
          invariant 0 <= k <= |args|
          invariant forall k' :: 0 <= k' < k ==> i < |args[k']|
          invariant |entry| == k && forall k' :: 0 <= k' < k ==> entry[k'] == args[k'][i]
        {
          if i >= |args[k]| {
            assert StoredCount(args) == i;
            return Failure(IndexError);
          }
          entry := entry + [args[k][i]];
          k := k + 1;
        }
        assert entry == Column(args, i);
        Store(entry);
        assert Rows(args, i + 1) == Rows(args, i) + [entry];
        i := i + 1;
      }
      assert StoredCount(args) == i;
      return Success(());
    }
  }

  // ---------------------------------------------------------------------------
  // Slicing helpers

  /** Python's `x[start:stop]` for integer bounds: negatives count from the end, both clamp. */
  function PySlice<T>(x: seq<T>, start: int, stop: int): (r: seq<T>)
    ensures |r| <= |x|
  {
    var n := |x|;
    var s := if start < 0 then (if start + n < 0 then 0 else start + n) else (if start > n then n else start);
    var e := if stop < 0 then (if stop + n < 0 then 0 else stop + n) else (if stop > n then n else stop);
    if s < e then x[s..e] else []
  }

  /** `is_odd`: bit 0 of n's two's-complement form, which is n modulo 2 also for negative n. */
  function IsOdd(n: int): (r: bool)
    ensures r <==> (n + 1) % 2 == 0
  {
    n % 2 == 1
  }

  /** Python's `int(n / 2)`: division truncated toward zero. */
  function TruncHalf(n: int): (h: int)
    ensures n >= 0 ==> 0 <= h && 2 * h <= n < 2 * h + 2
    ensures n < 0 ==> h <= 0 && 2 * h - 2 < n <= 2 * h
  {
    if n >= 0 then n / 2 else -((-n) / 2)
  }

  /** `symmetric_remove`: drops `n` items, half from each end, the odd one from the front. */
  function SymmetricRemove<T>(x: seq<T>, n: int): (r: seq<T>)
    ensures |r| <= |x|
    ensures n < 0 ==> r == if IsOdd(n) && |x| > 0 then x[1..] else x
  {
    var odd := IsOdd(n);
    var half := TruncHalf(n);
    var trimmed := if half > 0 then PySlice(x, half, -half) else x;
    DropFirst(trimmed);
    if odd then PySlice(trimmed, 1, |trimmed|) else trimmed
  }

  /** Trimming `half > 0` items from each end leaves the middle, or nothing when they overlap. */
  lemma TrimBothEnds<T>(x: seq<T>, half: int)
    requires half > 0
    ensures PySlice(x, half, -half) == if 2 * half <= |x| then x[half..|x| - half] else []
  {
  }

  /** Slicing from 1 to the end drops the first item, if any. */
  lemma DropFirst<T>(t: seq<T>)
    ensures PySlice(t, 1, |t|) == if |t| == 0 then [] else t[1..]
  {
  }

  lemma SymmetricRemoveSlice<T>(x: seq<T>, n: nat)
    ensures |SymmetricRemove(x, n)| == if n <= |x| then |x| - n else 0
    ensures n <= |x| ==> SymmetricRemove(x, n) == x[n / 2 + n % 2 .. |x| - n / 2]
  {
    var half := n / 2;
    assert TruncHalf(n) == half;
    var trimmed := if half > 0 then PySlice(x, half, -half) else x;
    if half > 0 {
      TrimBothEnds(x, half);
    }
    assert trimmed == if 2 * half <= |x| then x[half..|x| - half] else [];
    if n % 2 == 1 {
      assert IsOdd(n);
      DropFirst(trimmed);
      assert SymmetricRemove(x, n) == PySlice(trimmed, 1, |trimmed|);
      if n <= |x| {
        assert trimmed[1..] == x[half + 1..|x| - half];
      }
    } else {
      assert !IsOdd(n);
      assert SymmetricRemove(x, n) == trimmed;
    }
  }
}
