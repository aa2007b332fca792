/**
 The byte-packed vector of programs/albus-stake-pool/src/big_vec.rs: a 32-bit
 little-endian length followed by elements of a fixed size, edited in place.
 */
module BigVectors {
  import opened Wrappers
  import opened Modular
  import opened LittleEndian

  datatype ProgramError = AccountDataTooSmall | InvalidAccountData

  const VEC_SIZE_BYTES: nat := 4

  // ------------------------------------------------ elements of a buffer

  /** The number of bytes of c elements of size sz. */
  function Extent(c: nat, sz: nat): nat {
    c * sz
  }

  /** The elements of size sz that fill b from the front. */
  function Chunks(b: Bytes, sz: nat): seq<Bytes>
    requires sz > 0
  {
    if |b| < sz then [] else [b[..sz]] + Chunks(b[sz..], sz)
  }

  /** The elements that satisfy pred, in their order. */
  function Filter<T>(pred: T -> bool, s: seq<T>): seq<T> {
    if s == [] then [] else (if pred(s[0]) then [s[0]] else []) + Filter(pred, s[1..])
  }

  /** The bytes of the elements that satisfy pred. */
  ghost function FilterBytes(pred: Bytes -> bool, b: Bytes, sz: nat): (r: Bytes)
    requires sz > 0
    ensures |r| <= |b|
  {
    if |b| < sz then [] else (if pred(b[..sz]) then b[..sz] else []) + FilterBytes(pred, b[sz..], sz)
  }

  /** y is x but for its first v entries; z is y with e written at the position at. */
  lemma Appended<T>(x: seq<T>, y: seq<T>, z: seq<T>, v: nat, at: nat, e: seq<T>)
    requires v <= at && at + |e| <= |x| == |y| && y[v..] == x[v..] && z == y[..at] + e + y[at + |e|..]
    ensures |z| == |x| && z[..v] == y[..v] && z[v..at + |e|] == x[v..at] + e && z[at + |e|..] == x[at + |e|..]
  {
    assert y[v..at] == y[v..][..at - v] == x[v..at];
    assert y[at + |e|..] == y[v..][at + |e| - v..] == x[at + |e|..];
  }

  lemma SliceOfDrop<T>(y: seq<T>, lo: nat, hi: nat)
    requires lo <= hi <= |y|
    ensures y[lo..hi] == y[lo..][..hi - lo] && y[hi..] == y[lo..][hi - lo..]
  {
  }

  lemma SliceOfSlice<T>(y: seq<T>, a: nat, b: nat, lo: nat, hi: nat)
    requires a <= b <= |y| && lo <= hi <= b - a
    ensures y[a..b][lo..hi] == y[a + lo..a + hi]
  {
    var u, w := y[a..b][lo..hi], y[a + lo..a + hi];
    assert |u| == |w| && forall i :: 0 <= i < |u| ==> u[i] == w[i];
  }

  /** After a move of y[src..pos] down to dst: what is in front, and what is behind. */
  lemma MovedDown<T>(y: seq<T>, z: seq<T>, v: nat, dst: nat, src: nat, pos: nat)
    requires v <= dst <= src <= pos <= |y|
    requires z == y[..dst] + y[src..pos] + y[dst + (pos - src)..]
    ensures |z| == |y| && z[..v] == y[..v] && z[pos..] == y[pos..]
    ensures z[v..pos - (src - dst)] == y[v..dst] + y[src..pos]
  {
    var n := pos - (src - dst);
    assert z[..n] == y[..dst] + y[src..pos];
    assert z[v..n] == z[..n][v..];
  }

  /** Writing inside y[v..end] leaves the rest. */
  lemma Overwritten<T>(y: seq<T>, z: seq<T>, v: nat, end: nat, lo: nat, e: seq<T>)
    requires v + lo + |e| <= end <= |y| && z == y[..v + lo] + e + y[v + lo + |e|..]
    ensures |z| == |y| && z[..v] == y[..v]
    ensures z[v..end] == y[v..end][..lo] + e + y[v..end][lo + |e|..]
  {
    assert y[v..end][..lo] == y[v..v + lo] && y[v..end][lo + |e|..] == y[v + lo + |e|..end];
    var w := y[v..v + lo] + e + y[v + lo + |e|..end];
    assert |w| == end - v && forall i :: 0 <= i < |w| ==> z[v + i] == w[i];
  }

  lemma ExtentStep(c: nat, sz: nat)
    ensures Extent(0, sz) == 0 && Extent(c + 1, sz) == Extent(c, sz) + sz
  {
  }

  lemma ExtentSub(c: nat, d: nat, sz: nat)
    requires d <= c
    ensures Extent(c - d, sz) == Extent(c, sz) - Extent(d, sz)
  {
  }

  lemma ExtentMono(c: nat, d: nat, sz: nat)
    requires sz > 0
    ensures c < d ==> Extent(c, sz) + sz <= Extent(d, sz)
  {
    if c < d {
      var k: nat := d - c - 1;
      ExtentSub(d, k, sz);
      ExtentStep(c, sz);
    }
  }

  lemma {:induction false} ChunksCount(b: Bytes, sz: nat, c: nat)
    requires sz > 0 && |b| == Extent(c, sz)
    ensures |Chunks(b, sz)| == c
    decreases c
  {
    hide Extent;
    ExtentStep(0, sz);
    if c > 0 {
      ExtentStep(c - 1, sz);
      ChunksCount(b[sz..], sz, c - 1);
    }
  }

  /** The element at position i, as bytes of the buffer. */
  lemma {:induction false} ChunkAt(b: Bytes, sz: nat, c: nat, i: nat)
    requires sz > 0 && |b| == Extent(c, sz) && i < c
    ensures |Chunks(b, sz)| == c && Extent(i, sz) + sz <= |b|
    ensures Chunks(b, sz)[i] == b[Extent(i, sz)..Extent(i, sz) + sz]
    decreases c
  {
    hide Extent;
    ChunksCount(b, sz, c);
    ExtentMono(i, c, sz);
    ExtentStep(c - 1, sz);
    if i == 0 {
      ExtentStep(0, sz);
    } else {
      ExtentStep(i - 1, sz);
      ChunkAt(b[sz..], sz, c - 1, i - 1);
    }
  }

  lemma {:induction false} ChunksAppend(a: Bytes, b: Bytes, sz: nat, c: nat)
    requires sz > 0 && |a| == Extent(c, sz)
    ensures Chunks(a + b, sz) == Chunks(a, sz) + Chunks(b, sz)
    decreases c
  {
    hide Extent;
    ExtentStep(0, sz);
    if c == 0 {
      assert a == [] && a + b == b;
    } else {
      ExtentStep(c - 1, sz);
      assert (a + b)[..sz] == a[..sz] && (a + b)[sz..] == a[sz..] + b;
      ChunksAppend(a[sz..], b, sz, c - 1);
    }
  }

  lemma {:induction false} FilterAppend(pred: Bytes -> bool, a: Bytes, b: Bytes, sz: nat, c: nat)
    requires sz > 0 && |a| == Extent(c, sz)
    ensures FilterBytes(pred, a + b, sz) == FilterBytes(pred, a, sz) + FilterBytes(pred, b, sz)
    decreases c
  {
    hide Extent;
    ExtentStep(0, sz);
    if c == 0 {
      assert a == [] && a + b == b;
    } else {
      ExtentStep(c - 1, sz);
      assert (a + b)[..sz] == a[..sz] && (a + b)[sz..] == a[sz..] + b;
      FilterAppend(pred, a[sz..], b, sz, c - 1);
    }
  }

  lemma FilterOne(pred: Bytes -> bool, b: Bytes)
    requires |b| > 0
    ensures FilterBytes(pred, b, |b|) == if pred(b) then b else []
  {
    assert b[..|b|] == b && FilterBytes(pred, b[|b|..], |b|) == [];
  }

  /** The kept bytes hold exactly the filtered elements. */
  lemma {:induction false} ChunksOfFilter(pred: Bytes -> bool, b: Bytes, sz: nat)
    requires sz > 0
    ensures Chunks(FilterBytes(pred, b, sz), sz) == Filter(pred, Chunks(b, sz))
  {
    if |b| >= sz {
      var rest := FilterBytes(pred, b[sz..], sz);
      ChunksOfFilter(pred, b[sz..], sz);
      assert Chunks(b, sz)[1..] == Chunks(b[sz..], sz);
      if pred(b[..sz]) {
        assert (b[..sz] + rest)[..sz] == b[..sz] && (b[..sz] + rest)[sz..] == rest;
      } else {
        assert [] + rest == rest;
      }
    }
  }

  // ------------------------------------------------------------ the vector

  /**
   What `retain` knows after scanning k elements of x, the buffer at the
   start: r were dropped; the ones kept among the first j, the last dropped
   one being the j-th, sit in front of dst; the rest are where they were.
   */
  ghost predicate Compacted(y: Bytes, x: Bytes, pred: Bytes -> bool, sz: nat, k: nat, j: nat, dst: nat, r: nat)
  {
    var mid, pos := VEC_SIZE_BYTES + Extent(j, sz), VEC_SIZE_BYTES + Extent(k, sz);
    && sz > 0 && |x| == |y| && j <= k && r <= j
    && VEC_SIZE_BYTES <= dst <= mid <= pos <= |x| && mid == dst + Extent(r, sz)
    && y[..VEC_SIZE_BYTES] == x[..VEC_SIZE_BYTES]
    && y[VEC_SIZE_BYTES..dst] == FilterBytes(pred, x[VEC_SIZE_BYTES..mid], sz)
    && FilterBytes(pred, x[mid..pos], sz) == x[mid..pos]
    && y[mid..] == x[mid..]
  }

  /** The gap is closed: everything kept so far is in place. */
  ghost predicate Closed(y: Bytes, x: Bytes, pred: Bytes -> bool, sz: nat, k: nat, r: nat)
  {
    var pos := VEC_SIZE_BYTES + Extent(k, sz);
    && sz > 0 && |x| == |y| && r <= k && Extent(r, sz) <= Extent(k, sz) && pos <= |x|
    && y[..VEC_SIZE_BYTES] == x[..VEC_SIZE_BYTES]
    && y[VEC_SIZE_BYTES..pos - Extent(r, sz)] == FilterBytes(pred, x[VEC_SIZE_BYTES..pos], sz)
    && y[pos..] == x[pos..]
  }

  lemma ScannedAll(x: Bytes, pred: Bytes -> bool, sz: nat, k: nat, j: nat)
    requires sz > 0 && j <= k
    requires VEC_SIZE_BYTES + Extent(j, sz) <= VEC_SIZE_BYTES + Extent(k, sz) <= |x|
    ensures FilterBytes(pred, x[VEC_SIZE_BYTES..VEC_SIZE_BYTES + Extent(k, sz)], sz) ==
      FilterBytes(pred, x[VEC_SIZE_BYTES..VEC_SIZE_BYTES + Extent(j, sz)], sz)
      + FilterBytes(pred, x[VEC_SIZE_BYTES + Extent(j, sz)..VEC_SIZE_BYTES + Extent(k, sz)], sz)
  {
    var mid, pos := VEC_SIZE_BYTES + Extent(j, sz), VEC_SIZE_BYTES + Extent(k, sz);
    assert x[VEC_SIZE_BYTES..pos] == x[VEC_SIZE_BYTES..mid] + x[mid..pos];
    FilterAppend(pred, x[VEC_SIZE_BYTES..mid], x[mid..pos], sz, j);
  }

  /** What has not been scanned has not been moved. */
  lemma Unscanned(y: Bytes, x: Bytes, pred: Bytes -> bool, sz: nat, k: nat, j: nat, dst: nat, r: nat)
    requires Compacted(y, x, pred, sz, k, j, dst, r) && VEC_SIZE_BYTES + Extent(k, sz) + sz <= |y|
    ensures |x| == |y| && Extent(r, sz) <= Extent(k, sz)
    ensures y[VEC_SIZE_BYTES + Extent(k, sz)..VEC_SIZE_BYTES + Extent(k, sz) + sz] ==
      x[VEC_SIZE_BYTES + Extent(k, sz)..VEC_SIZE_BYTES + Extent(k, sz) + sz]
  {
    hide Extent, FilterBytes;
    var mid, pos := VEC_SIZE_BYTES + Extent(j, sz), VEC_SIZE_BYTES + Extent(k, sz);
    SliceOfSlice(y, mid, |y|, pos - mid, pos - mid + sz);
    SliceOfSlice(x, mid, |x|, pos - mid, pos - mid + sz);
    assert y[mid..] == y[mid..|y|] && x[mid..] == x[mid..|x|];
  }

  lemma NothingScanned(y: Bytes, x: Bytes, pred: Bytes -> bool, sz: nat)
    requires sz > 0 && |y| >= VEC_SIZE_BYTES && x == y
    ensures Compacted(y, x, pred, sz, 0, 0, VEC_SIZE_BYTES, 0)
  {
    ExtentStep(0, sz);
  }

  lemma KeepNext(y: Bytes, x: Bytes, pred: Bytes -> bool, sz: nat, k: nat, j: nat, dst: nat, r: nat)
    requires Compacted(y, x, pred, sz, k, j, dst, r) && VEC_SIZE_BYTES + Extent(k, sz) + sz <= |x|
    requires pred(x[VEC_SIZE_BYTES + Extent(k, sz)..VEC_SIZE_BYTES + Extent(k, sz) + sz])
    ensures Compacted(y, x, pred, sz, k + 1, j, dst, r)
  {
    ExtentStep(k, sz);
    ExtentSub(k, j, sz);
    hide Extent, FilterBytes;
    var mid, pos := VEC_SIZE_BYTES + Extent(j, sz), VEC_SIZE_BYTES + Extent(k, sz);
    var e := x[pos..pos + sz];
    assert x[mid..pos + sz] == x[mid..pos] + e;
    FilterAppend(pred, x[mid..pos], e, sz, k - j);
    FilterOne(pred, e);
  }

  lemma DropNext(y: Bytes, x: Bytes, pred: Bytes -> bool, sz: nat, k: nat, r: nat)
    requires Closed(y, x, pred, sz, k, r) && VEC_SIZE_BYTES + Extent(k, sz) + sz <= |x|
    requires !pred(x[VEC_SIZE_BYTES + Extent(k, sz)..VEC_SIZE_BYTES + Extent(k, sz) + sz])
    ensures Compacted(y, x, pred, sz, k + 1, k + 1, VEC_SIZE_BYTES + Extent(k, sz) - Extent(r, sz), r + 1)
  {
    ExtentStep(k, sz);
    ExtentStep(r, sz);
    hide Extent;
    var pos := VEC_SIZE_BYTES + Extent(k, sz);
    var e := x[pos..pos + sz];
    assert x[VEC_SIZE_BYTES..pos + sz] == x[VEC_SIZE_BYTES..pos] + e;
    FilterAppend(pred, x[VEC_SIZE_BYTES..pos], e, sz, k);
    FilterOne(pred, e);
    assert FilterBytes(pred, x[VEC_SIZE_BYTES..pos], sz) + [] == FilterBytes(pred, x[VEC_SIZE_BYTES..pos], sz);
    assert y[pos + sz..] == y[pos..][sz..] && x[pos + sz..] == x[pos..][sz..];
    assert x[pos + sz..pos + sz] == [] && FilterBytes(pred, [], sz) == [];
  }

  /** The memmove that closes a gap. */
  lemma GapClosed(y: Bytes, z: Bytes, x: Bytes, pred: Bytes -> bool, sz: nat, k: nat, j: nat, dst: nat, r: nat)
    requires Compacted(y, x, pred, sz, k, j, dst, r)
    requires var src, pos := dst + Extent(r, sz), VEC_SIZE_BYTES + Extent(k, sz);
      z == y[..dst] + y[src..pos] + y[dst + (pos - src)..]
    ensures Closed(z, x, pred, sz, k, r)
  {
    hide Extent, FilterBytes;
    var src, pos := dst + Extent(r, sz), VEC_SIZE_BYTES + Extent(k, sz);
    MovedDown(y, z, VEC_SIZE_BYTES, dst, src, pos);
    SliceOfDrop(y, src, pos);
    SliceOfDrop(x, src, pos);
    ScannedAll(x, pred, sz, k, j);
  }

  /** With nothing dropped there is no gap. */
  lemma NoGap(y: Bytes, x: Bytes, pred: Bytes -> bool, sz: nat, k: nat, j: nat, dst: nat)
    requires Compacted(y, x, pred, sz, k, j, dst, 0)
    ensures Closed(y, x, pred, sz, k, 0)
  {
    ExtentStep(0, sz);
    hide Extent, FilterBytes;
    var pos := VEC_SIZE_BYTES + Extent(k, sz);
    assert y == y[..dst] + y[dst..pos] + y[pos..];
    GapClosed(y, y, x, pred, sz, k, j, dst, 0);
  }

  class BigVec {
    const data: array<Byte>
    /** Where the buffer lies in memory. */
    const address: nat

    constructor (data: array<Byte>, address: nat)
      ensures this.data == data && this.address == address
    {
      this.data, this.address := data, address;
    }

    /** Whether the bytes from an index on lie where a type of the given alignment may; always so for alignment one. */
    predicate Aligned(index: nat, align: nat)
      requires align > 0
    {
      (address + index) % align == 0
    }

    ghost predicate HasPrefix()
      reads this, data
    {
      data.Length >= VEC_SIZE_BYTES
    }

    function Len(): (n: nat)
      requires HasPrefix()
      reads this, data
    {
      LeValue(data[..VEC_SIZE_BYTES])
    }

    /** The elements counted by the prefix lie inside the buffer. */
    ghost predicate Valid(sz: nat)
      reads this, data
    {
      HasPrefix() && sz > 0 && VEC_SIZE_BYTES + Extent(Len(), sz) <= data.Length
    }

    /** The sequence the buffer stands for. */
    ghost function Contents(sz: nat): seq<Bytes>
      requires Valid(sz)
      reads this, data
    {
      Chunks(data[VEC_SIZE_BYTES..VEC_SIZE_BYTES + Extent(Len(), sz)], sz)
    }

    /** `sol_memmove` inside the buffer; the ranges may overlap. */
    method Memmove(dst: nat, src: nat, n: nat)
      requires dst + n <= data.Length && src + n <= data.Length
      modifies data
      ensures data[..] == old(data[..dst]) + old(data[src..src + n]) + old(data[dst + n..])
    {
      ghost var x := data[..];
      forall i | dst <= i < dst + n {
        data[i] := data[src + (i - dst)];
      }
      assert data[..] == x[..dst] + x[src..src + n] + x[dst + n..];
    }

    method WriteBytes(at: nat, b: Bytes)
      requires at + |b| <= data.Length
      modifies data
      ensures data[..] == old(data[..at]) + b + old(data[at + |b|..])
    {
      ghost var x := data[..];
      forall i | at <= i < at + |b| {
        data[i] := b[i - at];
      }
      assert data[..] == x[..at] + b + x[at + |b|..];
    }

    /** The length prefix, rewritten. */
    method WriteLen(n: nat)
      requires HasPrefix() && n < 0x1_0000_0000
      modifies data
      ensures Len() == n
      ensures data[..] == LeBytes(n, VEC_SIZE_BYTES) + old(data[VEC_SIZE_BYTES..])
    {
      WriteBytes(0, LeBytes(n, VEC_SIZE_BYTES));
      assert Pow(256, 4) == 0x1_0000_0000;
      LeValueOfBytes(n, VEC_SIZE_BYTES);
      assert data[..VEC_SIZE_BYTES] == LeBytes(n, VEC_SIZE_BYTES);
    }

    /** One of the two memmoves of `retain`. */
    method CloseGap(ghost x: Bytes, ghost pred: Bytes -> bool, ghost sz: nat, ghost k: nat, ghost j: nat,
                    dst: nat, gap: nat, pos: nat, ghost r: nat)
      requires Compacted(data[..], x, pred, sz, k, j, dst, r)
      requires gap == Extent(r, sz) && pos == VEC_SIZE_BYTES + Extent(k, sz)
      modifies data
      ensures Closed(data[..], x, pred, sz, k, r)
    {
      ghost var y := data[..];
      assert dst + gap <= pos <= |y| by { hide Extent, FilterBytes; }
      hide Compacted, Closed;
      Memmove(dst, dst + gap, pos - gap - dst);
      GapClosed(y, data[..], x, pred, sz, k, j, dst, r);
    }

    /** The scan of `retain` with its deferred memmoves; the prefix is left alone. */
    method Compact(sz: nat, pred: Bytes -> bool) returns (vecLen: nat, ghost removals: nat)
      requires Valid(sz)
      modifies data
      ensures Closed(data[..], old(data[..]), pred, sz, old(Len()), removals) && vecLen == old(Len()) - removals
    {
      hide Extent, FilterBytes;
      ghost var x := data[..];
      var len := Len();
      vecLen := len;
      var removalsFound: nat, dstStartIndex: nat := 0, 0;
      ghost var j := 0;
      var dataEndIndex := VEC_SIZE_BYTES + Extent(len, sz);
      var startIndex := VEC_SIZE_BYTES;
      ExtentStep(0, sz);
      NothingScanned(data[..], x, pred, sz);
      hide *;
      for k := 0 to len
        invariant startIndex == VEC_SIZE_BYTES + Extent(k, sz)
        invariant vecLen == len - removalsFound && removalsFound <= k
        invariant Compacted(data[..], x, pred, sz, k, j, if removalsFound == 0 then VEC_SIZE_BYTES
                            else dstStartIndex, removalsFound)
      {
        ExtentMono(k, len, sz);
        ExtentStep(k, sz);
        var endIndex := startIndex + sz;
        Unscanned(data[..], x, pred, sz, k, j, if removalsFound == 0 then VEC_SIZE_BYTES
                  else dstStartIndex, removalsFound);
        if !pred(data[startIndex..endIndex]) {
          var gap := Extent(removalsFound, sz);
          if removalsFound > 0 {
            CloseGap(x, pred, sz, k, j, dstStartIndex, gap, startIndex, removalsFound);
          } else {
            NoGap(data[..], x, pred, sz, k, j, VEC_SIZE_BYTES);
          }
          dstStartIndex := startIndex - gap;
          DropNext(data[..], x, pred, sz, k, removalsFound);
          removalsFound := removalsFound + 1;
          vecLen := vecLen - 1;
          j := k + 1;
        } else {
          KeepNext(data[..], x, pred, sz, k, j, if removalsFound == 0 then VEC_SIZE_BYTES
                   else dstStartIndex, removalsFound);
        }
        startIndex := endIndex;
      }
      if removalsFound > 0 {
        var gap := Extent(removalsFound, sz);
        CloseGap(x, pred, sz, len, j, dstStartIndex, gap, dataEndIndex, removalsFound);
      } else {
        NoGap(data[..], x, pred, sz, len, j, VEC_SIZE_BYTES);
      }
      removals := removalsFound;
    }

    /** Keeps the elements that satisfy pred, in order, and nothing else. */
    method Retain(sz: nat, pred: Bytes -> bool)
      requires Valid(sz)
      modifies data
      ensures Valid(sz) && Contents(sz) == Filter(pred, old(Contents(sz)))
      ensures Len() == |Filter(pred, old(Contents(sz)))|
      ensures data[VEC_SIZE_BYTES + Extent(old(Len()), sz)..] == old(data[VEC_SIZE_BYTES + Extent(Len(), sz)..])
    {
      hide Extent, FilterBytes, Chunks, Filter;
      ghost var x := data[..];
      ghost var len := Len();
      var vecLen: nat;
      ghost var r: nat;
      vecLen, r := Compact(sz, pred);
      ghost var z := data[..];
      LenBoundOf(x);
      WriteLen(vecLen);
      assert data[VEC_SIZE_BYTES..] == z[VEC_SIZE_BYTES..];
      Finish(x, z, pred, sz, len, r);
      ghost var end := VEC_SIZE_BYTES + Extent(len, sz);
      assert data[end..] == data[VEC_SIZE_BYTES..][end - VEC_SIZE_BYTES..]
        == z[VEC_SIZE_BYTES..][end - VEC_SIZE_BYTES..] == z[end..];
    }

    lemma LenBoundOf(x: Bytes)
      requires |x| >= VEC_SIZE_BYTES
      ensures LeValue(x[..VEC_SIZE_BYTES]) < 0x1_0000_0000
    {
      LeBytesOfValue(x[..VEC_SIZE_BYTES]);
      assert Pow(256, 4) == 0x1_0000_0000;
    }

    /** The buffer z with the gap closed and the new prefix stands for the filtered sequence. */
    lemma Finish(x: Bytes, z: Bytes, pred: Bytes -> bool, sz: nat, len: nat, r: nat)
      requires sz > 0 && |x| == |z| == data.Length && r <= len && VEC_SIZE_BYTES + Extent(len, sz) <= |x|
      requires Extent(r, sz) <= Extent(len, sz)
      requires z[VEC_SIZE_BYTES..VEC_SIZE_BYTES + Extent(len, sz) - Extent(r, sz)] ==
        FilterBytes(pred, x[VEC_SIZE_BYTES..VEC_SIZE_BYTES + Extent(len, sz)], sz)
      requires data[VEC_SIZE_BYTES..] == z[VEC_SIZE_BYTES..] && Len() == len - r
      ensures Valid(sz)
      ensures Contents(sz) == Filter(pred, Chunks(x[VEC_SIZE_BYTES..VEC_SIZE_BYTES + Extent(len, sz)], sz))
      ensures |Contents(sz)| == len - r
    {
      ExtentSub(len, r, sz);
      hide Extent, FilterBytes;
      var n := Extent(len - r, sz);
      assert data[VEC_SIZE_BYTES..VEC_SIZE_BYTES + n] == data[VEC_SIZE_BYTES..][..n]
        == z[VEC_SIZE_BYTES..VEC_SIZE_BYTES + n];
      ChunksOfFilter(pred, x[VEC_SIZE_BYTES..VEC_SIZE_BYTES + Extent(len, sz)], sz);
      ChunksCount(data[VEC_SIZE_BYTES..VEC_SIZE_BYTES + n], sz, len - r);
    }

    /**
     Appends an element. The length is written before the room is checked, so a
     push that fails leaves the prefix one too large.
     */
    method Push(sz: nat, align: nat, element: Bytes) returns (r: Result<(), ProgramError>)
      requires HasPrefix() && |element| == sz > 0 && align > 0 && Len() < 0xFFFF_FFFF
      modifies data
      ensures r.Ok? <==> (
        && VEC_SIZE_BYTES + Extent(old(Len()) + 1, sz) <= data.Length
        && (address + VEC_SIZE_BYTES + Extent(old(Len()), sz)) % align == 0)
      ensures r.Ok? ==> old(Valid(sz)) && Valid(sz) && Contents(sz) == old(Contents(sz)) + [element]
      ensures r.Ok? ==>
        data[VEC_SIZE_BYTES + Extent(old(Len()) + 1, sz)..] == old(data[VEC_SIZE_BYTES + Extent(Len() + 1, sz)..])
      ensures r == Err(AccountDataTooSmall) <==> VEC_SIZE_BYTES + Extent(old(Len()) + 1, sz) > data.Length
      ensures r.Err? ==> Len() == old(Len()) + 1
      ensures r.Err? ==> data[VEC_SIZE_BYTES..] == old(data[VEC_SIZE_BYTES..])
    {
      ghost var x := data[..];
      ghost var n0 := Len();
      var vecLen := Len();
      ExtentStep(vecLen, sz);
      hide Extent, Chunks;
      var startIndex := VEC_SIZE_BYTES + Extent(vecLen, sz);
      var endIndex := startIndex + sz;
      vecLen := vecLen + 1;
      WriteLen(vecLen);
      assert data[VEC_SIZE_BYTES..] == x[VEC_SIZE_BYTES..];
      if data.Length < endIndex {
        return Err(AccountDataTooSmall);
      }
      if !Aligned(startIndex, align) {
        return Err(InvalidAccountData);
      }
      ghost var y := data[..];
      WriteBytes(startIndex, element);
      ghost var before := x[VEC_SIZE_BYTES..startIndex];
      Appended(x, y, data[..], VEC_SIZE_BYTES, startIndex, element);
      ChunksAppend(before, element, sz, n0);
      ChunkOne(element);
      r := Ok(());
    }

    /** The position of the first element that satisfies pred. */
    method Find(sz: nat, pred: Bytes -> bool) returns (r: Option<nat>)
      requires Valid(sz)
      ensures r.Some? ==> r.value < |Contents(sz)| && pred(Contents(sz)[r.value])
      ensures r.Some? ==> forall i :: 0 <= i < r.value ==> !pred(Contents(sz)[i])
      ensures r.None? ==> forall i :: 0 <= i < |Contents(sz)| ==> !pred(Contents(sz)[i])
    {
      var len := Len();
      ExtentStep(0, sz);
      hide Extent, Chunks;
      ghost var b := data[VEC_SIZE_BYTES..VEC_SIZE_BYTES + Extent(len, sz)];
      ChunksCount(b, sz, len);
      var current, currentIndex := 0, VEC_SIZE_BYTES;
      while current != len
        invariant current <= len && currentIndex == VEC_SIZE_BYTES + Extent(current, sz)
        invariant forall i :: 0 <= i < current ==> !pred(Contents(sz)[i])
        decreases len - current
      {
        ChunkAt(b, sz, len, current);
        ExtentStep(current, sz);
        var endIndex := currentIndex + sz;
        SliceOfSlice(data[..], VEC_SIZE_BYTES, VEC_SIZE_BYTES + Extent(len, sz), Extent(current, sz),
                     Extent(current, sz) + sz);
        if pred(data[currentIndex..endIndex]) {
          return Some(current);
        }
        currentIndex := endIndex;
        current := current + 1;
      }
      r := None;
    }

    /** Writing through the reference that `find_mut` returns. */
    method WriteAt(sz: nat, i: nat, element: Bytes)
      requires Valid(sz) && i < Len() && |element| == sz
      modifies data
      ensures Valid(sz) && |old(Contents(sz))| == old(Len()) && Contents(sz) == old(Contents(sz))[i := element]
    {
      var len := Len();
      ghost var x := data[VEC_SIZE_BYTES..VEC_SIZE_BYTES + Extent(len, sz)];
      ChunkAt(x, sz, len, i);
      hide Extent, Chunks;
      ghost var before := data[..];
      WriteBytes(VEC_SIZE_BYTES + Extent(i, sz), element);
      Overwritten(before, data[..], VEC_SIZE_BYTES, VEC_SIZE_BYTES + Extent(len, sz), Extent(i, sz), element);
      ReplaceChunk(x, sz, len, i, element);
    }

    /** The elements skip, ..., skip + len - 1; more than the vector holds, or a misaligned start, is an error. */
    method DeserializeSlice(sz: nat, align: nat, skip: nat, len: nat) returns (r: Result<seq<Bytes>, ProgramError>)
      requires Valid(sz) && align > 0
      ensures r == Err(AccountDataTooSmall) <==> skip + len > Len()
      ensures r == Err(InvalidAccountData) <==>
        skip + len <= Len() && (address + VEC_SIZE_BYTES + Extent(skip, sz)) % align != 0
      ensures r.Ok? ==> skip + len <= |Contents(sz)| && r.value == Contents(sz)[skip..skip + len]
    {
      var vecLen := Len();
      if skip + len > vecLen {
        return Err(AccountDataTooSmall);
      }
      if !Aligned(VEC_SIZE_BYTES + Extent(skip, sz), align) {
        return Err(InvalidAccountData);
      }
      hide Extent, Chunks;
      ghost var b := data[VEC_SIZE_BYTES..VEC_SIZE_BYTES + Extent(vecLen, sz)];
      SliceOfChunks(b, sz, vecLen, skip, len);
      var startIndex := VEC_SIZE_BYTES + Extent(skip, sz);
      var endIndex := startIndex + Extent(len, sz);
      SliceOfSlice(data[..], VEC_SIZE_BYTES, VEC_SIZE_BYTES + Extent(vecLen, sz), Extent(skip, sz),
                   Extent(skip, sz) + Extent(len, sz));
      r := Ok(Chunks(data[startIndex..endIndex], sz));
    }
  }

  lemma ChunkOne(b: Bytes)
    requires |b| > 0
    ensures Chunks(b, |b|) == [b]
  {
    assert b[..|b|] == b && Chunks(b[|b|..], |b|) == [];
  }

  /** A stretch of whole elements holds the corresponding elements. */
  lemma SliceOfChunks(b: Bytes, sz: nat, c: nat, skip: nat, len: nat)
    requires sz > 0 && |b| == Extent(c, sz) && skip + len <= c
    ensures Extent(skip, sz) + Extent(len, sz) <= |b| && |Chunks(b, sz)| == c
    ensures Chunks(b[Extent(skip, sz)..Extent(skip, sz) + Extent(len, sz)], sz) == Chunks(b, sz)[skip..skip + len]
  {
    ExtentSub(c, skip + len, sz);
    ExtentSub(skip + len, skip, sz);
    hide Extent, Chunks;
    var lo, hi := Extent(skip, sz), Extent(skip, sz) + Extent(len, sz);
    var x, y, z := b[..lo], b[lo..hi], b[hi..];
    assert b == x + (y + z);
    ChunksAppend(x, y + z, sz, skip);
    ChunksAppend(y, z, sz, len);
    ChunksCount(x, sz, skip);
    ChunksCount(y, sz, len);
    ChunksCount(b, sz, c);
  }

  lemma ReplaceChunk(b: Bytes, sz: nat, c: nat, i: nat, element: Bytes)
    requires |element| == sz > 0 && |b| == Extent(c, sz) && i < c
    ensures Extent(i, sz) + sz <= |b| && |Chunks(b, sz)| == c
    ensures Chunks(b[..Extent(i, sz)] + element + b[Extent(i, sz) + sz..], sz) == Chunks(b, sz)[i := element]
  {
    ChunkAt(b, sz, c, i);
    ExtentStep(i, sz);
    ExtentSub(c, i + 1, sz);
    hide Extent, Chunks;
    var lo := Extent(i, sz);
    var x, e, z := b[..lo], b[lo..lo + sz], b[lo + sz..];
    assert b == x + (e + z);
    assert x + element + z == x + (element + z);
    ChunksAround(x, e, z, sz, i);
    ChunksAround(x, element, z, sz, i);
  }

  lemma ChunksAround(x: Bytes, e: Bytes, z: Bytes, sz: nat, i: nat)
    requires |e| == sz > 0 && |x| == Extent(i, sz)
    ensures |Chunks(x, sz)| == i && Chunks(x + (e + z), sz) == Chunks(x, sz) + ([e] + Chunks(z, sz))
  {
    hide Extent, Chunks;
    ChunksAppend(x, e + z, sz, i);
    ChunkOne(e);
    assert Extent(1, sz) == sz by { ExtentStep(0, sz); }
    ChunksAppend(e, z, sz, 1);
    ChunksCount(x, sz, i);
  }
}
