/**
 Splitting an inclusive address range into CIDR blocks, the way expand_source asks for it:
 starting at the low end, the largest block that is both aligned there and inside the range.
 */
module AddressRange {

  function Pow2(n: nat): (p: nat)
    ensures p >= 1
  {
    if n == 0 then 1 else 2 * Pow2(n - 1)
  }

  /** Number of low zero bits of x, counted in a word of the given width. */
  function TrailingZeros(x: nat, bits: nat): (n: nat)
    ensures n <= bits
  {
    if bits == 0 || x % 2 == 1 then 0 else 1 + TrailingZeros(x / 2, bits - 1)
  }

  /** Index of the highest set bit. */
  function FloorLog2(x: nat): (n: nat)
    requires x > 0
    ensures Pow2(n) <= x < Pow2(n + 1)
  {
    if x == 1 then 0 else 1 + FloorLog2(x / 2)
  }

  /** The 2^hostBits addresses starting at base. */
  datatype Block = Block(base: nat, hostBits: nat) {
    function Limit(): nat {
      base + Pow2(hostBits)
    }

    predicate Contains(a: int) {
      base <= a < Limit()
    }

    predicate Aligned() {
      base % Pow2(hostBits) == 0
    }
  }

  function Min(a: nat, b: nat): nat {
    if a <= b then a else b
  }

  function Summarize(first: nat, last: nat, bits: nat): seq<Block>
    decreases last + 1 - first
  {
    if first > last then
      []
    else
      var n := Min(TrailingZeros(first, bits), FloorLog2(last - first + 1));
      [Block(first, n)] + Summarize(first + Pow2(n), last, bits)
  }

  /** Some block holds the address. */
  ghost predicate Covers(blocks: seq<Block>, a: int) {
    exists b :: b in blocks && b.Contains(a)
  }

  /** The blocks are laid end to end from lo up to hi. */
  ghost predicate Tiles(blocks: seq<Block>, lo: nat, hi: nat) {
    if blocks == [] then lo == hi
    else blocks[0].base == lo && Tiles(blocks[1..], blocks[0].Limit(), hi)
  }

  // ----- arithmetic of powers of two

  lemma MulAtLeast(d: int, b: nat)
    ensures d >= 1 ==> d * b >= b
    ensures d <= -1 ==> d * b + b <= 0
  {
  }

  /** Division with remainder is unique. */
  lemma ModOfMultiple(q: nat, b: nat, r: nat)
    requires r < b
    ensures (q * b + r) % b == r
  {
    var x := q * b + r;
    MulAtLeast(q - x / b, b);
    assert (q - x / b) * b == x % b - r;
  }

  lemma ModPlus(x: nat, b: nat)
    requires b > 0
    ensures (x + b) % b == x % b
  {
    assert x + b == (x / b + 1) * b + x % b;
    ModOfMultiple(x / b + 1, b, x % b);
  }

  /** Halving splits the remainder by 2*b into the remainder of the half and the low bit. */
  lemma ModDouble(x: nat, b: nat)
    requires b > 0
    ensures x % (2 * b) == 2 * ((x / 2) % b) + x % 2
  {
    var q, r := (x / 2) / b, (x / 2) % b;
    assert x / 2 == q * b + r;
    assert x == q * (2 * b) + (2 * r + x % 2);
    ModOfMultiple(q, 2 * b, 2 * r + x % 2);
  }

  lemma {:induction false} AlignedIffTrailingZeros(x: nat, bits: nat, m: nat)
    requires m <= bits
    ensures x % Pow2(m) == 0 <==> m <= TrailingZeros(x, bits)
  {
    if m > 0 {
      ModDouble(x, Pow2(m - 1));
      AlignedIffTrailingZeros(x / 2, bits - 1, m - 1);
    }
  }

  lemma {:induction false} Pow2Monotonic(m: nat, n: nat)
    requires m <= n
    ensures Pow2(m) <= Pow2(n)
  {
    if m < n {
      Pow2Monotonic(m, n - 1);
    }
  }

  lemma FloorLog2AtMost(x: nat, n: nat)
    requires 0 < x < Pow2(n + 1)
    ensures FloorLog2(x) <= n
  {
    if FloorLog2(x) > n {
      Pow2Monotonic(n + 1, FloorLog2(x));
    }
  }

  /** Stepping over one aligned block clears its lowest set bit. */
  lemma {:induction false} StepRaisesAlignment(x: nat, bits: nat)
    requires TrailingZeros(x, bits) < bits
    ensures TrailingZeros(x + Pow2(TrailingZeros(x, bits)), bits) > TrailingZeros(x, bits)
  {
    var n := TrailingZeros(x, bits);
    if x % 2 == 0 {
      StepRaisesAlignment(x / 2, bits - 1);
      assert (x + Pow2(n)) / 2 == x / 2 + Pow2(n - 1);
    }
  }

  // ----- what the summarization produces

  /** Every block is aligned on its own size and no wider than an address. */
  lemma {:induction false} SummarizeAligned(first: nat, last: nat, bits: nat)
    ensures forall b :: b in Summarize(first, last, bits) ==> b.Aligned() && b.hostBits <= bits
    decreases last + 1 - first
  {
    if first <= last {
      var n := Min(TrailingZeros(first, bits), FloorLog2(last - first + 1));
      AlignedIffTrailingZeros(first, bits, n);
      SummarizeAligned(first + Pow2(n), last, bits);
    }
  }

  lemma {:induction false} SummarizeTiles(first: nat, last: nat, bits: nat)
    requires first <= last + 1
    ensures Tiles(Summarize(first, last, bits), first, last + 1)
    decreases last + 1 - first
  {
    if first <= last {
      var k := FloorLog2(last - first + 1);
      var n := Min(TrailingZeros(first, bits), k);
      Pow2Monotonic(n, k);
      SummarizeTiles(first + Pow2(n), last, bits);
      assert Summarize(first, last, bits)[1..] == Summarize(first + Pow2(n), last, bits);
    }
  }

  /** Blocks laid end to end cover exactly [lo, hi), each address once, in ascending order. */
  lemma {:induction false} TilesPartition(blocks: seq<Block>, lo: nat, hi: nat)
    requires Tiles(blocks, lo, hi)
    ensures lo <= hi
    ensures forall a :: Covers(blocks, a) <==> lo <= a < hi
    ensures forall i, j :: 0 <= i < j < |blocks| ==> blocks[i].Limit() <= blocks[j].base
    ensures forall b :: b in blocks ==> lo <= b.base
  {
    if blocks != [] {
      TilesPartition(blocks[1..], blocks[0].Limit(), hi);
      forall a ensures Covers(blocks, a) <==> lo <= a < hi {
        if lo <= a < hi {
          if blocks[0].Contains(a) {
          } else {
            assert Covers(blocks[1..], a);
            var b :| b in blocks[1..] && b.Contains(a);
            assert b in blocks;
          }
        }
        if b :| b in blocks && b.Contains(a) {
          if b != blocks[0] {
            assert b in blocks[1..];
            assert Covers(blocks[1..], a);
          }
        }
      }
      forall i, j | 0 <= i < j < |blocks| ensures blocks[i].Limit() <= blocks[j].base {
        assert blocks[j] == blocks[1..][j - 1];
        if i > 0 {
          assert blocks[i] == blocks[1..][i - 1];
        } else {
          assert blocks[1..][j - 1] in blocks[1..];
        }
      }
    }
  }

  /** Once the length limits the size, every further block is smaller and still aligned. */
  lemma FallingStep(first: nat, last: nat, bits: nat)
    requires first <= last
    requires FloorLog2(last - first + 1) <= TrailingZeros(first, bits)
    ensures var k := FloorLog2(last - first + 1);
      first + Pow2(k) <= last ==>
        FloorLog2(last - (first + Pow2(k)) + 1) < k <= TrailingZeros(first + Pow2(k), bits)
  {
    var k := FloorLog2(last - first + 1);
    var next := first + Pow2(k);
    if next <= last {
      assert k > 0 ==> last - next + 1 < Pow2(k);
      if k > 0 {
        FloorLog2AtMost(last - next + 1, k - 1);
      }
      AlignedIffTrailingZeros(first, bits, k);
      ModPlus(first, Pow2(k));
      AlignedIffTrailingZeros(next, bits, k);
    }
  }

  lemma {:induction false} SummarizeCountFalling(first: nat, last: nat, bits: nat)
    requires first <= last
    requires FloorLog2(last - first + 1) <= TrailingZeros(first, bits)
    ensures |Summarize(first, last, bits)| <= FloorLog2(last - first + 1) + 1
    decreases last + 1 - first
  {
    var next := first + Pow2(FloorLog2(last - first + 1));
    FallingStep(first, last, bits);
    if next <= last {
      SummarizeCountFalling(next, last, bits);
    }
  }

  lemma RisingStep(first: nat, last: nat, bits: nat)
    requires first <= last && TrailingZeros(first, bits) < FloorLog2(last - first + 1) < bits
    ensures var next := first + Pow2(TrailingZeros(first, bits));
      next <= last ==>
        && TrailingZeros(next, bits) > TrailingZeros(first, bits)
        && FloorLog2(last - next + 1) <= FloorLog2(last - first + 1)
  {
    var next := first + Pow2(TrailingZeros(first, bits));
    if next <= last {
      StepRaisesAlignment(first, bits);
      FloorLog2AtMost(last - next + 1, FloorLog2(last - first + 1));
    }
  }

  /** Block sizes first rise with the alignment of the low end, then fall with what is left. */
  lemma {:induction false} SummarizeCountRising(first: nat, last: nat, bits: nat)
    requires first <= last
    requires TrailingZeros(first, bits) <= FloorLog2(last - first + 1) < bits
    ensures |Summarize(first, last, bits)| <= 2 * FloorLog2(last - first + 1) + 1 - TrailingZeros(first, bits)
    decreases last + 1 - first
  {
    var n, k := TrailingZeros(first, bits), FloorLog2(last - first + 1);
    if n == k {
      SummarizeCountFalling(first, last, bits);
    } else {
      var next := first + Pow2(n);
      if next <= last {
        RisingStep(first, last, bits);
        if TrailingZeros(next, bits) <= FloorLog2(last - next + 1) {
          SummarizeCountRising(next, last, bits);
        } else {
          SummarizeCountFalling(next, last, bits);
        }
      }
    }
  }

  /** A range never needs more than two blocks per address bit. */
  lemma SummarizeCount(first: nat, last: nat, bits: nat)
    requires first <= last < Pow2(bits) && bits > 0
    ensures 1 <= |Summarize(first, last, bits)| <= 2 * bits
  {
    var k := FloorLog2(last - first + 1);
    Pow2Monotonic(bits, bits + 1);
    FloorLog2AtMost(last - first + 1, bits);
    if k == bits {
      assert first == 0;
      AlignedIffTrailingZeros(0, bits, bits);
      ModOfMultiple(0, Pow2(bits), 0);
      SummarizeCountFalling(first, last, bits);
    } else if TrailingZeros(first, bits) <= k {
      SummarizeCountRising(first, last, bits);
    } else {
      SummarizeCountFalling(first, last, bits);
    }
  }

  /** A valid range becomes aligned, ascending, disjoint blocks whose union is exactly the range. */
  lemma SummarizeIsExact(first: nat, last: nat, bits: nat)
    requires first <= last < Pow2(bits) && bits > 0
    ensures var blocks := Summarize(first, last, bits);
      && (forall b :: b in blocks ==> b.Aligned() && b.hostBits <= bits && b.Limit() <= Pow2(bits))
      && (forall i, j :: 0 <= i < j < |blocks| ==> blocks[i].Limit() <= blocks[j].base)
      && (forall a :: Covers(blocks, a) <==> first <= a <= last)
      && 1 <= |blocks| <= 2 * bits
  {
    var blocks := Summarize(first, last, bits);
    SummarizeAligned(first, last, bits);
    SummarizeTiles(first, last, bits);
    TilesPartition(blocks, first, last + 1);
    SummarizeCount(first, last, bits);
    forall b | b in blocks ensures b.Limit() <= Pow2(bits) {
      assert b.Contains(b.Limit() - 1);
      assert Covers(blocks, b.Limit() - 1);
    }
  }
}
