/** The arithmetic of a file kept in blocks of one size: how many blocks `addCapacity`
    appends, where a range of addresses lies, and what a write does to the flat file. */
module Blocks {
  import opened Bytes

  // ---- Growth ----

  /** How many blocks `addCapacity(n)` appends when `room` bytes lie between the cursor and
      the end of the last block. The comparison with `room` is the source's; the
      documented contract would need a comparison with zero. */
  function GrowthCount(base: nat, room: nat, n: nat): nat
    requires base >= 1
  {
    if n <= room then 0
    else (n - room) / base + if (n - room) % base > room then 1 else 0
  }

  /** When the appended blocks can hold the request, as a test on what the caller knows. */
  predicate Suffices(base: nat, room: nat, n: nat)
    requires base >= 1
  {
    n <= room || (n - room) % base == 0 || (n - room) % base > room
  }

  /** The room after growth. */
  function GrownRoom(base: nat, room: nat, n: nat): nat
    requires base >= 1
  {
    room + Addr(base, GrowthCount(base, room, n))
  }

  lemma GrowthSuffices(base: nat, room: nat, n: nat)
    requires base >= 1
    ensures n <= GrownRoom(base, room, n) <==> Suffices(base, room, n)
  {
    hide Addr;
    AddrProduct(base, GrowthCount(base, room, n));
    if n > room {
      var d := n - room;
      assert d == base * (d / base) + d % base;
      if d % base > room {
        assert base * (d / base + 1) == base * (d / base) + base;
      }
    }
  }

  /** A request of `q` whole blocks and `r` bytes beyond the room gets the whole blocks, and one more exactly
      when those bytes are more than the room that there was; with no block for them it is short. */
  lemma {:induction false} GrowthMeaning(base: nat, room: nat, q: nat, r: nat)
    requires r < base && 0 < base * q + r
    ensures var n := room + base * q + r;
            && GrowthCount(base, room, n) == q + (if r > room then 1 else 0)
            && GrownRoom(base, room, n) == room + base * q + (if r > room then base else 0)
            && (Suffices(base, room, n) <==> r == 0 || r > room)
  {
    var d := base * q + r;
    QuotientUnique(base, q, r, d / base, d % base);
    AddrProduct(base, q);
    AddrProduct(base, q + 1);
    assert base * (q + 1) == base * q + base;
  }

  /** Growth never appends a block more than the request needs. */
  lemma {:induction false} GrowthIsTight(base: nat, room: nat, n: nat)
    requires base >= 1
    ensures GrowthCount(base, room, n) > 0 ==> room + Addr(base, GrowthCount(base, room, n) - 1) < n
  {
    if GrowthCount(base, room, n) > 0 {
      AddrProduct(base, GrowthCount(base, room, n) - 1);
    }
    if n > room {
      var d := n - room;
      var q := d / base;
      assert d == base * q + d % base;
      assert base * (q - 1) == base * q - base;
    }
  }

  /** With the default block size: three bytes into a fresh array, 4094 more do not fit. */
  lemma GrowthFallsShort()
    ensures !Suffices(4096, 4093, 4094) && GrowthCount(4096, 4093, 4094) == 0
    ensures !Suffices(4096, 1, 4098) && GrowthCount(4096, 1, 4098) == 1
  {
  }

  // ---- Blocks and the flat file ----

  /** The address at which block `j` starts. */
  function Addr(base: nat, j: nat): nat {
    if j == 0 then 0 else Addr(base, j - 1) + base
  }

  lemma {:induction false} AddrProduct(base: nat, j: nat)
    ensures Addr(base, j) == base * j
  {
    if j > 0 {
      AddrProduct(base, j - 1);
      assert base * j == base * (j - 1) + base;
    }
  }

  lemma {:induction false} AddrSum(base: nat, i: nat, j: nat)
    ensures Addr(base, i + j) == Addr(base, i) + Addr(base, j)
  {
    if j > 0 {
      AddrSum(base, i, j - 1);
    }
  }

  lemma {:induction false} AddrOfFirst(base: nat)
    ensures Addr(base, 0) == 0 && Addr(base, 1) == base
  {
  }

  lemma {:induction false} AddrMonotone(base: nat, i: nat, j: nat)
    ensures i < j ==> Addr(base, i) + base <= Addr(base, j)
    ensures i <= j ==> Addr(base, i) <= Addr(base, j)
    decreases j
  {
    if i < j {
      AddrMonotone(base, i, j - 1);
    }
  }

  /** `s` with the bytes from `p` on replaced by `b`, and longer if they do not fit. */
  function Splice(s: seq<byte>, p: nat, b: seq<byte>): (r: seq<byte>)
    requires p <= |s|
    ensures |r| == if p + |b| <= |s| then |s| else p + |b|
  {
    s[..p] + b + if p + |b| <= |s| then s[p + |b|..] else []
  }

  /** The same write seen from the end of the file, which may lie before or behind it. */
  lemma SpliceContents(before: seq<byte>, after: seq<byte>, size: nat, p: nat, b: seq<byte>)
    requires p <= size <= |before| && Splice(before, p, b) <= after
    ensures after[..if p + |b| > size then p + |b| else size] == Splice(before[..size], p, b)
  {
    var s := Splice(before, p, b);
    var t := Splice(before[..size], p, b);
    assert forall i | 0 <= i < |t| :: t[i] == s[i] == after[i];
  }

  lemma SpliceAt(s: seq<byte>, p: nat, b: seq<byte>, k: nat)
    requires p <= |s| && k < |Splice(s, p, b)|
    ensures Splice(s, p, b)[k] == if p <= k < p + |b| then b[k - p] else s[k]
  {
  }

  lemma SpliceTwice(s: seq<byte>, p: nat, a: seq<byte>, b: seq<byte>)
    requires p <= |s|
    ensures Splice(Splice(s, p, a), p + |a|, b) == Splice(s, p, a + b)
  {
  }

  lemma SpliceNothing(s: seq<byte>, p: nat)
    requires p <= |s|
    ensures Splice(s, p, []) == s
  {
  }

  /** `after` is `before` with `b` written at `p`, byte by byte. */
  ghost predicate Wrote(before: seq<byte>, p: nat, b: seq<byte>, after: seq<byte>) {
    && p + |b| <= |before| == |after|
    && forall i | 0 <= i < |after| :: after[i] == if p <= i < p + |b| then b[i - p] else before[i]
  }

  lemma WroteNothing(s: seq<byte>, p: nat)
    requires p <= |s|
    ensures Wrote(s, p, [], s)
  {
  }

  /** A chunk written behind what was written before. */
  lemma WroteMore(before: seq<byte>, mid: seq<byte>, after: seq<byte>, p: nat, b: seq<byte>, done: nat, len: nat)
    requires done + len <= |b| && p + done + len <= |before|
    requires Wrote(before, p, b[..done], mid) && Wrote(mid, p + done, b[done..done + len], after)
    ensures Wrote(before, p, b[..done + len], after)
  {
  }

  /** These bytes lie at `p` in the flat file. */
  ghost predicate Copied(data: seq<byte>, flat: seq<byte>, p: nat) {
    p + |data| <= |flat| && data == flat[p..p + |data|]
  }

  lemma CopiedNothing(flat: seq<byte>, p: nat)
    requires p <= |flat|
    ensures Copied([], flat, p)
  {
  }

  lemma CopiedMore(data: seq<byte>, chunk: seq<byte>, flat: seq<byte>, p: nat)
    requires Copied(data, flat, p) && Copied(chunk, flat, p + |data|)
    ensures Copied(data + chunk, flat, p)
  {
  }

  lemma WroteIsSplice(before: seq<byte>, p: nat, b: seq<byte>, after: seq<byte>)
    requires p + |b| <= |before|
    ensures Wrote(before, p, b, after) <==> after == Splice(before, p, b)
  {
  }

  /** Block `k`, with these bytes, is the range of the flat file that starts at its address. */
  ghost predicate Mirror(flat: seq<byte>, base: nat, k: nat, block: seq<byte>) {
    && |block| == base && Addr(base, k) + base <= |flat|
    && forall o | 0 <= o < base :: block[o] == flat[Addr(base, k) + o]
  }

  lemma {:induction false} MirrorOfPrefix(flat: seq<byte>, shorter: seq<byte>, base: nat, k: nat, block: seq<byte>)
    requires shorter <= flat && Addr(base, k) + base <= |shorter|
    ensures Mirror(flat, base, k, block) <==> Mirror(shorter, base, k, block)
  {
  }

  lemma {:induction false} MirrorAppended(flat: seq<byte>, base: nat, k: nat, block: seq<byte>)
    requires |flat| == Addr(base, k) && |block| == base
    ensures Mirror(flat + block, base, k, block)
  {
  }

  /** Copying into block `j` is copying into the flat file; every other block stays as it is. */
  lemma {:induction false} MirrorWrote(flat: seq<byte>, base: nat, j: nat, off: nat, b: seq<byte>, after: seq<byte>,
                    k: nat, block: seq<byte>, block': seq<byte>)
    requires Mirror(flat, base, k, block)
    requires Addr(base, j) + base <= |flat| && off + |b| <= base
    requires Wrote(flat, Addr(base, j) + off, b, after)
    requires if k == j then Wrote(block, off, b, block') else block' == block
    ensures Mirror(after, base, k, block')
  {
    AddrMonotone(base, j, k);
    AddrMonotone(base, k, j);
  }

  /** A write into a file with bytes behind it is a write into the file. */
  lemma SplicePrefix(s: seq<byte>, t: seq<byte>, p: nat, b: seq<byte>)
    requires s <= t && p <= |s| && p + |b| <= |t|
    ensures Splice(s, p, b) <= Splice(t, p, b)
  {
    assert forall k | 0 <= k < |Splice(s, p, b)| :: Splice(s, p, b)[k] == Splice(t, p, b)[k];
  }

  /** A write into the grown flat file, seen from the flat file before and from the file in it. */
  lemma WrittenFile(before: seq<byte>, grown: seq<byte>, after: seq<byte>, size: nat, p: nat, b: seq<byte>)
    requires before <= grown && p <= size <= |before| && Wrote(grown, p, b, after)
    ensures |after| == |grown| && Splice(before, p, b) <= after
    ensures after[..if p + |b| > size then p + |b| else size] == Splice(before[..size], p, b)
  {
    hide Splice;
    WroteIsSplice(grown, p, b, after);
    SplicePrefix(before, grown, p, b);
    SpliceContents(before, after, size, p, b);
  }

  // ---- Where an address lies ----

  lemma MulMonotone(base: nat, a: int, b: int)
    ensures a < b ==> base * a + base <= base * b
  {
    if a < b {
      var d := b - a - 1;
      assert base * b == base * a + base + base * d;
    }
  }

  lemma QuotientUnique(base: nat, j: nat, off: nat, q: nat, r: nat)
    requires off < base && r < base
    requires base * j + off == base * q + r
    ensures q == j && r == off
  {
    MulMonotone(base, q, j);
    MulMonotone(base, j, q);
  }

  lemma {:induction false} DivMod(base: nat, j: nat, off: nat)
    requires off < base
    ensures (Addr(base, j) + off) / base == j
    ensures (Addr(base, j) + off) % base == off
  {
    AddrProduct(base, j);
    var x := Addr(base, j) + off;
    QuotientUnique(base, j, off, x / base, x % base);
  }

  lemma {:induction false} SplitAddress(base: nat, p: nat)
    requires base >= 1
    ensures p == Addr(base, p / base) + p % base
  {
    AddrProduct(base, p / base);
  }

  /** A run of bytes inside one block. */
  datatype Piece = Piece(block: nat, off: nat, len: nat) {
    function Address(base: nat): nat {
      Addr(base, block) + off
    }
  }

  /** `n` bytes from offset `off` of block `j` on, cut at the block boundaries. */
  function CutFrom(base: nat, j: nat, off: nat, n: nat): seq<Piece>
    requires off < base
    decreases n
  {
    if n == 0 then []
    else
      var len := if n <= base - off then n else base - off;
      [Piece(j, off, len)] + CutFrom(base, j + 1, 0, n - len)
  }

  /** The first piece of what is left moves over to what is done. */
  lemma CutStep(base: nat, j: nat, off: nat, n: nat, done: seq<Piece>, goal: seq<Piece>)
    requires off < base && n > 0 && done + CutFrom(base, j, off, n) == goal
    ensures var len := if n <= base - off then n else base - off;
            && (n == len ==> done + [Piece(j, off, len)] == goal)
            && done + [Piece(j, off, len)] + CutFrom(base, j + 1, 0, n - len) == goal
  {
    var len := if n <= base - off then n else base - off;
    assert done + [Piece(j, off, len)] + CutFrom(base, j + 1, 0, n - len) == done + CutFrom(base, j, off, n);
    if n == len {
      assert CutFrom(base, j + 1, 0, 0) == [];
    }
  }

  /** The pieces lie in one block after the other, each but the first from its start and each but the last
      to its end. */
  lemma {:induction false} CutShape(base: nat, j: nat, off: nat, n: nat, k: nat)
    requires off < base
    ensures var ps := CutFrom(base, j, off, n);
            k < |ps| ==>
              && ps[k].block == j + k && ps[k].off == (if k == 0 then off else 0)
              && (k + 1 < |ps| ==> ps[k].off + ps[k].len == base)
    decreases k
  {
    if n > base - off && k > 0 {
      CutShape(base, j + 1, 0, n - (base - off), k - 1);
    }
  }

  /** The addresses `[p, p + n)` cut at the block boundaries. */
  function Cut(base: nat, p: nat, n: nat): seq<Piece>
    requires base >= 1
  {
    CutFrom(base, p / base, p % base, n)
  }

  lemma {:induction false} CutNothing(base: nat, j: nat, off: nat)
    requires off < base
    ensures CutFrom(base, j, off, 0) == []
  {
  }

  function Total(ps: seq<Piece>): nat {
    if ps == [] then 0 else ps[0].len + Total(ps[1..])
  }

  /** The pieces follow one another from address `p` on, each non-empty and inside its block. */
  ghost predicate Consecutive(base: nat, ps: seq<Piece>, p: nat) {
    ps == [] ||
    (&& ps[0].Address(base) == p
     && 0 < ps[0].len && ps[0].off + ps[0].len <= base
     && Consecutive(base, ps[1..], p + ps[0].len))
  }

  lemma {:induction false} CutFromCovers(base: nat, j: nat, off: nat, n: nat)
    requires off < base
    ensures Consecutive(base, CutFrom(base, j, off, n), Addr(base, j) + off)
    ensures Total(CutFrom(base, j, off, n)) == n
    decreases n
  {
    if n > 0 {
      var ps := CutFrom(base, j, off, n);
      CutFromCovers(base, j + 1, 0, n - ps[0].len);
      assert ps[1..] == CutFrom(base, j + 1, 0, n - ps[0].len);
    }
  }

  /** The cut covers exactly the addresses from `p` to `p + n`. */
  lemma {:induction false} CutCovers(base: nat, p: nat, n: nat)
    requires base >= 1
    ensures Consecutive(base, Cut(base, p, n), p) && Total(Cut(base, p, n)) == n
  {
    SplitAddress(base, p);
    CutFromCovers(base, p / base, p % base, n);
  }

  lemma {:induction false} TotalAppend(ps: seq<Piece>, qs: seq<Piece>)
    ensures Total(ps + qs) == Total(ps) + Total(qs)
  {
    if ps == [] {
      assert ps + qs == qs;
    } else {
      assert (ps + qs)[1..] == ps[1..] + qs;
      TotalAppend(ps[1..], qs);
    }
  }

  lemma {:induction false} TotalStep(ps: seq<Piece>, k: nat)
    requires k < |ps|
    ensures Total(ps[..k + 1]) == Total(ps[..k]) + ps[k].len
    ensures Total(ps[..k + 1]) <= Total(ps)
  {
    assert ps[..k + 1] == ps[..k] + [ps[k]];
    TotalAppend(ps[..k], [ps[k]]);
    assert ps == ps[..k + 1] + ps[k + 1..];
    TotalAppend(ps[..k + 1], ps[k + 1..]);
  }

  /** Piece `k` starts where the ones before it end. */
  lemma {:induction false} ConsecutiveAt(base: nat, ps: seq<Piece>, p: nat, k: nat)
    requires Consecutive(base, ps, p)
    ensures k < |ps| ==>
              && ps[k].Address(base) == p + Total(ps[..k])
              && 0 < ps[k].len && ps[k].off + ps[k].len <= base
              && Total(ps[..k]) + ps[k].len <= Total(ps)
    decreases k
  {
    if k < |ps| {
      TotalStep(ps, k);
      if k > 0 {
        ConsecutiveAt(base, ps[1..], p + ps[0].len, k - 1);
        assert ps[1..][..k - 1] == ps[1..k];
        assert ps[..k][1..] == ps[1..k];
      }
    }
  }

  ghost predicate Holds(base: nat, piece: Piece, a: nat) {
    piece.Address(base) <= a < piece.Address(base) + piece.len
  }

  lemma {:induction false} PiecesWithin(base: nat, ps: seq<Piece>, p: nat, k: nat)
    requires Consecutive(base, ps, p) && k < |ps|
    ensures p <= ps[k].Address(base) && ps[k].Address(base) + ps[k].len <= p + Total(ps)
  {
    if k > 0 {
      PiecesWithin(base, ps[1..], p + ps[0].len, k - 1);
    }
  }

  /** Consecutive pieces are disjoint and leave no gap: every address of the range lies
      in exactly one of them. */
  lemma {:induction false} Partition(base: nat, ps: seq<Piece>, p: nat, a: nat) returns (k: nat)
    requires Consecutive(base, ps, p) && p <= a < p + Total(ps)
    ensures k < |ps| && Holds(base, ps[k], a)
    ensures forall l | 0 <= l < |ps| && Holds(base, ps[l], a) :: l == k
  {
    var q := p + ps[0].len;
    if a < q {
      k := 0;
      forall l | 0 < l < |ps|
        ensures !Holds(base, ps[l], a)
      {
        PiecesWithin(base, ps[1..], q, l - 1);
      }
    } else {
      var k' := Partition(base, ps[1..], q, a);
      k := k' + 1;
      forall l | 0 <= l < |ps| && Holds(base, ps[l], a)
        ensures l == k
      {
        if l > 0 {
          assert Holds(base, ps[1..][l - 1], a);
        }
      }
    }
  }

  // ---- Reading ----

  /** What `read` of `n` bytes gives when `rest` lies between the cursor and the end of the
      file, and `edge` says that the end of the file is the end of the last block. Even a
      read of no bytes looks at the current block, which is null at the edge. */
  function Take(rest: seq<byte>, edge: bool, n: nat): (r: Result<seq<byte>>) {
    if n > |rest| then OutOfRange
    else if rest == [] && edge then NullDereference
    else Ok(rest[..n])
  }
}
