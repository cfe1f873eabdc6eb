/** Index ranges of job arrays: membership, enumeration, limits, and the packing of array job ids. */
module JobIndex {
  /** One `start-end:step` item of an index list. */
  datatype Range = Range(start: int, end: int, step: int)

  predicate InRange(i: int, r: Range)
    requires r.step >= 1
  {
    r.start <= i <= r.end && (i - r.start) % r.step == 0
  }

  predicate Steps(l: seq<Range>) {
    forall k :: 0 <= k < |l| ==> l[k].step >= 1
  }

  /** The arithmetic membership test; an absent list admits every index. */
  predicate InIdxList(i: int, l: seq<Range>)
    requires Steps(l)
  {
    l == [] || exists k :: 0 <= k < |l| && InRange(i, l[k])
  }

  // ----- Enumeration -----

  /** The indices visited by counting from `i` to `end` in steps. */
  function Count(i: int, end: int, step: int): seq<int>
    requires step >= 1
    decreases end - i
  {
    if i > end then [] else [i] + Count(i + step, end, step)
  }

  function Enumerate(r: Range): seq<int>
    requires r.step >= 1
  {
    Count(r.start, r.end, r.step)
  }

  function EnumerateAll(l: seq<Range>): seq<int>
    requires Steps(l)
  {
    if l == [] then [] else Enumerate(l[0]) + EnumerateAll(l[1..])
  }

  /** One more index visited. */
  lemma CountNext(seen: seq<int>, i: int, end: int, step: int)
    requires step >= 1
    ensures seen + Count(i, end, step) == if i <= end then seen + [i] + Count(i + step, end, step) else seen
  {}

  lemma MulApart(k: int, d: int, step: int)
    requires d >= 1 && step >= 1
    ensures (k + d) * step >= k * step + step
  {
    MulAtLeast(d, step);
    assert (k + d) * step == k * step + d * step;
  }

  lemma MulAtLeast(k: int, step: int)
    requires k >= 1 && step >= 1
    ensures k * step >= step
  {}

  lemma ModUnique(a: int, q: int, m: int, step: int)
    requires step >= 1 && a == q * step + m && 0 <= m < step
    ensures a / step == q && a % step == m
  {
    var q' := a / step;
    if q > q' {
      MulApart(q', q - q', step);
    } else if q < q' {
      MulApart(q, q' - q, step);
    }
  }

  lemma ModStep(a: int, step: int)
    requires step >= 1
    ensures (a - step) % step == a % step
  {
    var q := a / step;
    assert (q - 1) * step == q * step - step;
    ModUnique(a - step, q - 1, a % step, step);
  }

  /** Counting visits exactly the indices in range that are a whole number of steps away. */
  lemma {:induction false} CountExactly(x: int, i: int, end: int, step: int)
    requires step >= 1
    ensures x in Count(i, end, step) <==> i <= x <= end && (x - i) % step == 0
    decreases end - i
  {
    if i <= end {
      CountExactly(x, i + step, end, step);
      if x == i {
        ModUnique(0, 0, 0, step);
      } else {
        ModStep(x - i, step);
        assert x - i - step == x - (i + step);
        if i < x < i + step {
          ModUnique(x - i, 0, x - i, step);
        }
      }
    }
  }

  lemma {:induction false} CountLength(i: int, end: int, step: int)
    requires step >= 1 && i <= end
    ensures |Count(i, end, step)| == (end - i) / step + 1
    decreases end - i
  {
    var d := end - i;
    if i + step <= end {
      CountLength(i + step, end, step);
      var q := (d - step) / step;
      assert (q + 1) * step == q * step + step;
      ModUnique(d, q + 1, (d - step) % step, step);
    } else {
      ModUnique(d, 0, d, step);
    }
  }

  /** The membership test agrees with the enumeration; without a list it admits every index. */
  lemma InIdxListExactly(x: int, l: seq<Range>)
    requires Steps(l)
    ensures InIdxList(x, l) <==> l == [] || x in EnumerateAll(l)
  {
    if l != [] {
      InSomeRange(x, l);
    }
  }

  lemma {:induction false} InSomeRange(x: int, l: seq<Range>)
    requires Steps(l) && l != []
    ensures InIdxList(x, l) <==> x in EnumerateAll(l)
    decreases |l|
  {
    CountExactly(x, l[0].start, l[0].end, l[0].step);
    if |l| > 1 {
      InSomeRange(x, l[1..]);
      if InIdxList(x, l) && !InRange(x, l[0]) {
        var k :| 0 <= k < |l| && InRange(x, l[k]);
        assert l[1..][k - 1] == l[k];
      }
      if InIdxList(x, l[1..]) {
        var k :| 0 <= k < |l[1..]| && InRange(x, l[1..][k]);
        assert l[k + 1] == l[1..][k];
      }
    } else {
      assert l[1..] == [];
    }
  }

  // ----- Limits -----

  datatype Error = NoError | BadIdx | BigIdx

  const INFINIT_INT := 0x7fffffff
  const LSB_MAX_ARRAY_IDX := 0xFFFF

  const TWO_31 := 0x8000_0000
  const TWO_32 := 0x1_0000_0000

  /** The value of a signed integer of 32 bits after a result has wrapped around. */
  function Int32(x: int): int {
    var low := x % TWO_32;
    if low < TWO_31 then low else low - TWO_32
  }

  lemma Int32Exactly(x: int)
    requires x >= 0
    ensures -TWO_31 <= Int32(x) < TWO_31 && Int32(x) <= x && (Int32(x) == x <==> x < TWO_31)
  {}

  /** An open-ended range is cut off after as many steps as an array may have elements, in arithmetic of 32 bits. */
  function Resolve(r: Range, max: int): Range {
    if r.end == INFINIT_INT then r.(end := Int32(r.start + (max - 1) * r.step)) else r
  }

  function ResolveAll(l: seq<Range>, max: int): seq<Range> {
    seq(|l|, i requires 0 <= i < |l| => Resolve(l[i], max))
  }

  /** An open-ended range gets exactly as many indices as an array may have exactly if its end does not wrap around. */
  lemma ResolvedExactly(r: Range, max: int)
    requires r.end == INFINIT_INT && r.start >= 1 && r.step >= 1 && max >= 1
    ensures |Enumerate(Resolve(r, max))| == max <==> r.start + (max - 1) * r.step < TWO_31
  {
    var full, end := r.start + (max - 1) * r.step, Resolve(r, max).end;
    MulNonNegative(max - 1, r.step);
    Int32Exactly(full);
    if r.start <= end {
      CountLength(r.start, end, r.step);
      if end < full {
        QuotientBelow(end - r.start, max - 1, r.step);
      } else {
        ModUnique(full - r.start, max - 1, 0, r.step);
      }
    }
  }

  lemma MulNonNegative(a: int, b: int)
    requires a >= 0 && b >= 0
    ensures a * b >= 0
  {}

  lemma QuotientBelow(a: int, q: int, step: int)
    requires step >= 1 && 0 <= a < q * step
    ensures a / step < q
  {
    if a / step >= q {
      MulMonotone(q, a / step, step);
    }
  }

  lemma MulMonotone(a: int, b: int, step: int)
    requires a <= b && step >= 1
    ensures a * step <= b * step
  {}

  /** A range that counts up, and does not reach too high except in a replay of old events. */
  predicate Proper(r: Range, replay: bool) {
    r.step >= 1 && 1 <= r.start <= r.end && (!replay ==> r.end < LSB_MAX_ARRAY_IDX)
  }

  predicate AllProper(l: seq<Range>, replay: bool) {
    forall k :: 0 <= k < |l| ==> Proper(l[k], replay)
  }

  /** What an index list must satisfy: every range proper, and not too many indices. */
  ghost predicate Acceptable(l: seq<Range>, max: int, replay: bool) {
    AllProper(l, replay) && Steps(l) && (!replay ==> |EnumerateAll(l)| <= max)
  }

  lemma {:induction false} EnumerateSnoc(l: seq<Range>, r: Range)
    requires Steps(l) && r.step >= 1
    ensures Steps(l + [r]) && EnumerateAll(l + [r]) == EnumerateAll(l) + Enumerate(r)
    decreases |l|
  {
    assert forall k :: 0 <= k < |l| ==> (l + [r])[k] == l[k];
    assert (l + [r])[|l|] == r;
    if l == [] {
      assert l + [r] == [r] && [r][1..] == [];
      assert EnumerateAll([r]) == Enumerate(r) + EnumerateAll([]);
    } else {
      assert (l + [r])[1..] == l[1..] + [r];
      EnumerateSnoc(l[1..], r);
    }
  }

  /** The checks on a parsed index list, with ranges resolved on the way. The parser only delivers positive steps. The
      size is summed up in 32 bits. */
  method CheckIndexList(l: seq<Range>, max: int, replay: bool) returns (error: Error, out: seq<Range>)
    requires Steps(l)
    ensures out == ResolveAll(l, max)
    ensures error == NoError <==> AllProper(out, replay) && (!replay ==> Int32(|EnumerateAll(out)|) <= max)
    ensures (forall k :: 0 <= k < |out| ==> 1 <= out[k].start <= out[k].end) ==> error != BadIdx
    ensures replay ==> error != BigIdx
  {
    error, out := NoError, l;
    var arraySize := 0;
    for i := 0 to |l|
      invariant |out| == |l| && Steps(out)
      invariant forall k :: 0 <= k < i ==> out[k] == Resolve(l[k], max)
      invariant forall k :: i <= k < |l| ==> out[k] == l[k]
      invariant error == NoError <==> forall k :: 0 <= k < i ==> Proper(out[k], replay)
      invariant (forall k :: 0 <= k < i ==> 1 <= out[k].start <= out[k].end) ==> error != BadIdx
      invariant replay ==> error != BigIdx
      invariant error == NoError ==> arraySize == Int32(|EnumerateAll(out[..i])|)
    {
      ghost var before := out;
      if out[i].start < 1 || out[i].step < 1 {
        error := BadIdx;
      }
      out := out[i := Resolve(out[i], max)];
      if out[i].start > out[i].end {
        error := BadIdx;
      }
      if !replay && out[i].end >= LSB_MAX_ARRAY_IDX {
        error := BigIdx;
      }
      SizeStep(before, out, i, arraySize);
      arraySize := Int32(arraySize + (out[i].end - out[i].start) / out[i].step + 1);
    }
    assert out[..|l|] == out;
    if !replay && arraySize > max {
      error := BigIdx;
    }
  }

  /** The sum in 32 bits goes on being what the exact sum comes to in 32 bits. */
  lemma SizeStep(before: seq<Range>, out: seq<Range>, i: nat, size: int)
    requires i < |before| == |out| && out == before[i := out[i]] && Steps(before) && out[i].step >= 1
    ensures Steps(out[..i]) && Steps(out[..i + 1])
    ensures size == Int32(|EnumerateAll(before[..i])|) && out[i].start <= out[i].end ==>
              Int32(size + (out[i].end - out[i].start) / out[i].step + 1) == Int32(|EnumerateAll(out[..i + 1])|)
  {
    assert out[..i] == before[..i];
    assert out[..i + 1] == out[..i] + [out[i]];
    EnumerateSnoc(out[..i], out[i]);
    if out[i].start <= out[i].end {
      CountLength(out[i].start, out[i].end, out[i].step);
      Int32Add(|EnumerateAll(out[..i])|, |Enumerate(out[i])|);
    }
  }

  lemma Int32Add(a: int, b: int)
    ensures Int32(Int32(a) + b) == Int32(a + b)
  {}

  /** The check accepts exactly what it should, if the exact size fits 32 bits. */
  lemma FitsExactly(l: seq<Range>, max: int, replay: bool)
    requires Steps(l) && |EnumerateAll(l)| < TWO_31
    ensures AllProper(l, replay) && (!replay ==> Int32(|EnumerateAll(l)|) <= max) <==> Acceptable(l, max, replay)
  {
    Int32Exactly(|EnumerateAll(l)|);
  }

  /** It does if there are at most 2^15 ranges; so a list has to be longer than that to be wrongly accepted. */
  lemma {:induction false} ShortListsFit(l: seq<Range>)
    requires AllProper(l, false) && Steps(l)
    ensures |EnumerateAll(l)| <= |l| * LSB_MAX_ARRAY_IDX
    ensures |l| <= 0x8000 ==> |EnumerateAll(l)| < TWO_31
    decreases |l|
  {
    if l != [] {
      ShortListsFit(l[1..]);
      CountLength(l[0].start, l[0].end, l[0].step);
      QuotientAtMost(l[0].end - l[0].start, l[0].step);
    }
  }

  /** That many copies of the longest proper range. */
  function Copies(n: nat): seq<Range> {
    if n == 0 then [] else [Range(1, LSB_MAX_ARRAY_IDX - 1, 1)] + Copies(n - 1)
  }

  lemma {:induction false} CopiesCount(n: nat)
    ensures |Copies(n)| == n && AllProper(Copies(n), false) && Steps(Copies(n))
    ensures |EnumerateAll(Copies(n))| == n * (LSB_MAX_ARRAY_IDX - 1)
  {
    if n > 0 {
      CopiesCount(n - 1);
      CountLength(1, LSB_MAX_ARRAY_IDX - 1, 1);
    }
  }

  /** A list of a little more than 2^15 long ranges is accepted whatever the limit, since its size wraps around. */
  lemma OverflowAccepted(max: int)
    requires 0 <= max < TWO_31
    ensures var l := Copies(0x8002);
            && Steps(l) && AllProper(l, false) && Int32(|EnumerateAll(l)|) <= max && !Acceptable(l, max, false)
  {
    CopiesCount(0x8002);
  }

  lemma QuotientAtMost(a: int, step: int)
    requires a >= 0 && step >= 1
    ensures a / step <= a
  {
    if a / step > a {
      MulMonotone(1, step, a / step);
    }
  }

  // ----- Job ids -----

  /** The index in the upper half and the array's id in the lower half of 64 bits. */
  function LsbJobId(id: int, idx: int): int { idx * TWO_32 + id }

  function LsbArrayIdx(j: int): int { if j == -1 then 0 else (j / TWO_32) % (LSB_MAX_ARRAY_IDX + 1) }

  /** The lower half, cast to a signed integer of 32 bits. */
  function LsbArrayJobId(j: int): int {
    if j == -1 then -1 else Int32(j % TWO_32)
  }

  /** The index comes back from the packed id exactly if it has no more than 16 bits. The array's id comes back exactly
      if it is positive as a signed integer too; a larger one comes back negative. */
  lemma PackUnpack(id: int, idx: int)
    requires 0 <= id < TWO_32 && 0 <= idx < TWO_31
    ensures LsbArrayIdx(LsbJobId(id, idx)) == idx <==> idx < 0x10000
    ensures LsbArrayJobId(LsbJobId(id, idx)) == id <==> id < TWO_31
    ensures id >= TWO_31 ==> LsbArrayJobId(LsbJobId(id, idx)) == id - TWO_32
  {
    ModUnique(LsbJobId(id, idx), idx, id, TWO_32);
  }

  lemma PackInjective(id: int, idx: int, id': int, idx': int)
    requires 0 <= id < TWO_32 && 0 <= idx <= LSB_MAX_ARRAY_IDX
    requires 0 <= id' < TWO_32 && 0 <= idx' <= LSB_MAX_ARRAY_IDX
    ensures LsbJobId(id, idx) == LsbJobId(id', idx') <==> id == id' && idx == idx'
  {
    PackUnpack(id, idx);
    PackUnpack(id', idx');
  }

  /** Outside replay, the ids of the elements of an accepted list unpack to the index, and to the array exactly if its
      id is below 2^31. */
  lemma AcceptedIdsUnpack(l: seq<Range>, id: int, i: int)
    requires Steps(l) && AllProper(l, false) && 0 < id < TWO_32 && i in EnumerateAll(l)
    ensures 1 <= i < LSB_MAX_ARRAY_IDX
    ensures LsbArrayIdx(LsbJobId(id, i)) == i
    ensures LsbArrayJobId(LsbJobId(id, i)) == id <==> id < TWO_31
  {
    InIdxListExactly(i, l);
    PackUnpack(id, i);
  }
}
