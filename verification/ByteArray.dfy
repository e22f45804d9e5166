/** The growable byte file: a linked list of blocks of one size with a cursor. The object
    invariant ties the list to a flat file; every method states what it does to that file. */
module ByteArrays {
  import opened Bytes
  import opened Blocks

  /** A memory block and the link to the next one. */
  class Node {
    const ptr: array<byte>
    const size: nat
    var next: Node?

    constructor (s: nat)
      ensures size == s && ptr.Length == s && next == null
      ensures fresh(ptr)
    {
      ptr := new byte[s];
      size := s;
      next := null;
    }
  }

  /** A stretch of a block handed out for scatter or gather input and output. */
  datatype Slice = Slice(ptr: array<byte>, off: nat, len: nat)

  method MemCpy(dst: array<byte>, off: nat, src: seq<byte>)
    requires off + |src| <= dst.Length
    modifies dst
    ensures Wrote(old(dst[..]), off, src, dst[..])
  {
    forall k | 0 <= k < |src| {
      dst[off + k] := src[k];
    }
  }

  class ByteArray {
    const m_baseSize: nat
    /** The byte order of the machine. */
    const m_host: Endian
    const m_root: Node
    var m_position: nat
    var m_capacity: nat
    var m_size: nat
    var m_endian: Endian
    var m_cur: Node?
    /** The blocks from `m_root` along the links. */
    ghost var nodes: seq<Node>
    ghost var Repr: set<object>
    /** All bytes of all blocks, in order. */
    ghost var flat: seq<byte>
    /** The index of the block the cursor is in. */
    ghost var at: nat

    ghost function At(j: int): Node?
      reads `nodes
    {
      if 0 <= j < |nodes| then nodes[j] else null
    }

    ghost predicate Linked()
      reads `nodes, `Repr, `m_capacity, `flat, Repr
    {
      && m_baseSize >= 1 && this !in Repr
      && (forall k | 0 <= k < |nodes| :: nodes[k] in Repr && nodes[k].ptr in Repr)
      && |nodes| >= 1 && nodes[0] == m_root
      && (forall k | 0 <= k < |nodes| :: nodes[k].size == m_baseSize && nodes[k].ptr.Length == m_baseSize)
      && (forall k {:trigger nodes[k].next} | 0 <= k < |nodes| :: nodes[k].next == At(k + 1))
      && (forall k, l | 0 <= k < l < |nodes| :: nodes[k] != nodes[l] && nodes[k].ptr != nodes[l].ptr)
      && (forall k | 0 <= k < |nodes| :: Mirror(flat, m_baseSize, k, nodes[k].ptr[..]))
      && m_capacity == |flat| == Addr(m_baseSize, |nodes|)
    }

    /** The cursor is inside the file, the file inside the blocks, and the cached block
        is the one the cursor is in: null exactly at the end of the last block. */
    ghost predicate Valid()
      reads this, Repr
    {
      && Linked()
      && Cursor()
      && m_position <= m_size <= m_capacity
    }

    ghost predicate Cursor()
      reads this
    {
      && at <= |nodes| && m_cur == At(at)
      && Addr(m_baseSize, at) <= m_position < Addr(m_baseSize, at) + m_baseSize
      && m_position <= m_capacity
      && (at == |nodes| <==> m_position == m_capacity)
    }

    lemma Bounds()
      requires Valid()
      ensures m_position <= m_size <= |flat| && m_baseSize >= 1
    {
    }

    lemma CursorBlock()
      requires Valid()
      ensures at == m_position / m_baseSize
      ensures m_cur == null <==> m_position == m_capacity
    {
      DivMod(m_baseSize, at, m_position - Addr(m_baseSize, at));
    }

    /** The file: the bytes written so far. */
    ghost function Contents(): (f: seq<byte>)
      requires m_size <= |flat|
      reads `flat, `m_size
      ensures |f| == m_size
    {
      flat[..m_size]
    }

    /** The bytes between the cursor and the end of the file. */
    ghost function Rest(): (f: seq<byte>)
      requires m_position <= m_size <= |flat|
      reads `flat, `m_size, `m_position
    {
      flat[m_position..m_size]
    }

    /** The end of the file is the end of the last block. */
    ghost predicate Edge()
      reads `m_size, `m_capacity
    {
      m_size == m_capacity
    }

    /** `getReadSize` */
    function ReadSize(): nat
      requires m_position <= m_size
      reads this
    {
      m_size - m_position
    }

    /** `getCapacity`: the bytes between the cursor and the end of the last block. */
    function Room(): nat
      requires m_position <= m_capacity
      reads this
    {
      m_capacity - m_position
    }

    constructor (base_size: nat, host: Endian)
      requires base_size >= 1
      ensures Valid() && fresh(Repr)
      ensures m_baseSize == base_size && m_capacity == base_size
      ensures m_position == 0 && Contents() == [] && m_endian == Big
    {
      m_baseSize, m_host := base_size, host;
      var root := new Node(base_size);
      m_root := root;
      m_position, m_capacity, m_size := 0, base_size, 0;
      m_endian := Big;
      m_cur := root;
      nodes := [root];
      Repr := {root, root.ptr};
      at := 0;
      new;
      flat := root.ptr[..];
    }

    method SetIsLittleEndian(val: bool)
      requires Valid()
      modifies this`m_endian
      ensures Valid() && Contents() == old(Contents())
      ensures m_endian == if val then Little else Big
    {
      m_endian := if val then Little else Big;
    }

    /** Keeps the first block, with its bytes, and forgets the rest. */
    method Clear()
      requires Valid()
      modifies this, m_root`next
      ensures Valid() && Repr == old(Repr)
      ensures m_position == 0 && m_size == 0 && m_capacity == m_baseSize
      ensures flat == old(flat)[..m_baseSize] && m_endian == old(m_endian)
    {
      hide Mirror, Addr;
      AddrOfFirst(m_baseSize);
      AddrMonotone(m_baseSize, 1, |nodes|);
      MirrorOfPrefix(flat, flat[..m_baseSize], m_baseSize, 0, nodes[0].ptr[..]);
      flat := flat[..m_baseSize];
      m_position, m_size := 0, 0;
      m_capacity := m_baseSize;
      m_root.next := null;
      nodes := [m_root];
      m_cur, at := m_root, 0;
      assert Cursor();
      assert nodes[0].next == At(1) && Mirror(flat, m_baseSize, 0, nodes[0].ptr[..]);
    }

    /** Links a new block behind the last one. */
    method Append(last: Node) returns (node: Node)
      requires Linked() && last == nodes[|nodes| - 1]
      modifies `m_capacity, `nodes, `Repr, `flat, last`next
      ensures Linked() && fresh(node) && fresh(node.ptr)
      ensures Repr == old(Repr) + {node, node.ptr}
      ensures nodes == old(nodes) + [node]
      ensures old(flat) <= flat
    {
      hide Mirror;
      node := new Node(m_baseSize);
      last.next := node;
      m_capacity := m_capacity + m_baseSize;
      nodes := nodes + [node];
      Repr := Repr + {node, node.ptr};
      flat := flat + node.ptr[..];
      MirrorAppended(old(flat), m_baseSize, |old(nodes)|, node.ptr[..]);
      forall k | 0 <= k < |old(nodes)|
        ensures Mirror(flat, m_baseSize, k, nodes[k].ptr[..])
      {
        AddrMonotone(m_baseSize, k + 1, |old(nodes)|);
        MirrorOfPrefix(flat, old(flat), m_baseSize, k, nodes[k].ptr[..]);
      }
    }

    method LastBlock() returns (tmp: Node)
      requires Linked()
      ensures tmp == nodes[|nodes| - 1]
    {
      tmp := m_root;
      ghost var j := 0;
      while tmp.next != null
        invariant j < |nodes| && tmp == nodes[j]
        decreases |nodes| - j
      {
        tmp := tmp.next;
        j := j + 1;
      }
    }

    /** Appends `count` blocks and returns the first of them. */
    method AppendAll(last: Node, count: nat) returns (first: Node?)
      requires Linked() && last == nodes[|nodes| - 1]
      modifies `m_capacity, `nodes, `Repr, `flat, last`next
      ensures Linked() && fresh(Repr - old(Repr))
      ensures |nodes| == |old(nodes)| + count && old(nodes) <= nodes
      ensures old(flat) <= flat
      ensures first == At(if count == 0 then -1 else |old(nodes)|)
    {
      var tmp := last;
      first := null;
      var i := 0;
      while i < count
        invariant 0 <= i <= count
        invariant Linked() && fresh(Repr - old(Repr))
        invariant |nodes| == |old(nodes)| + i && old(nodes) <= nodes && tmp == nodes[|nodes| - 1]
        invariant i > 0 ==> fresh(tmp)
        invariant first == At(if i == 0 then -1 else |old(nodes)|)
        invariant old(flat) <= flat
      {
        tmp := Append(tmp);
        if first == null {
          first := tmp;
        }
        i := i + 1;
      }
    }

    method AddCapacity(size: nat)
      requires Valid()
      modifies this, Repr
      ensures Valid() && fresh(Repr - old(Repr))
      ensures Room() == GrownRoom(m_baseSize, old(Room()), size)
      ensures old(nodes) <= nodes
      ensures old(flat) <= flat
      ensures m_position == old(m_position) && m_size == old(m_size) && at == old(at) && m_endian == old(m_endian)
    {
      hide Mirror;
      var old_cap := Room();
      if size == 0 || old_cap >= size {
        return;
      }
      var count := GrowthCount(m_baseSize, old_cap, size);
      GrowthFromNothing(m_baseSize, size);
      GrownCursor(m_baseSize, m_position, at, |nodes|, |nodes| + count);
      AddrSum(m_baseSize, |nodes|, count);
      var last := LastBlock();
      var first := AppendAll(last, count);
      if old_cap == 0 {
        m_cur := first;
      }
    }

    /** Blocks behind the cursor's leave the cursor where it was. */
    lemma {:induction false} GrownCursor(base: nat, position: nat, block: nat, before: nat, after: nat)
      requires base >= 1 && before <= after && block <= before
      requires Addr(base, block) <= position < Addr(base, block) + base
      requires block == before <==> position == Addr(base, before)
      ensures Addr(base, before) <= Addr(base, after)
      ensures before < after ==> block < after && position < Addr(base, after)
    {
      AddrMonotone(base, before, after);
      AddrMonotone(base, block, after);
    }

    lemma GrowthFromNothing(base: nat, size: nat)
      requires base >= 1 && size > 0
      ensures GrowthCount(base, 0, size) > 0
    {
      GrowthSuffices(base, 0, size);
    }

    /** Moving on by `len` bytes inside the block, up to its end at most. */
    lemma CursorStep(len: nat)
      requires Linked() && Cursor() && at < |nodes|
      requires m_position + len <= Addr(m_baseSize, at) + m_baseSize
      ensures Addr(m_baseSize, at + 1) == Addr(m_baseSize, at) + m_baseSize <= m_capacity
      ensures m_position + len == Addr(m_baseSize, at + 1) ==>
                (at + 1 == |nodes| <==> m_position + len == m_capacity)
    {
      AddrMonotone(m_baseSize, at, |nodes|);
      AddrMonotone(m_baseSize, at + 1, |nodes|);
    }

    lemma CursorOffset()
      requires Linked() && Cursor()
      ensures m_position % m_baseSize == m_position - Addr(m_baseSize, at)
      ensures m_position <= |flat|
    {
      DivMod(m_baseSize, at, m_position - Addr(m_baseSize, at));
    }

    /** One `memcpy` into a block of the list. */
    method PutChunk(ptr: array<byte>, ghost j: nat, off: nat, chunk: seq<byte>)
      requires Linked() && j < |nodes| && ptr == nodes[j].ptr && off + |chunk| <= m_baseSize
      modifies ptr, `flat
      ensures Linked()
      ensures Addr(m_baseSize, j) + m_baseSize <= m_capacity
      ensures Wrote(old(flat), Addr(m_baseSize, j) + off, chunk, flat) && |flat| == |old(flat)|
    {
      AddrMonotone(m_baseSize, j, |nodes|);
      MemCpy(ptr, off, chunk);
      flat := Splice(flat, Addr(m_baseSize, j) + off, chunk);
      WroteIsSplice(old(flat), Addr(m_baseSize, j) + off, chunk, flat);
      forall k | 0 <= k < |nodes|
        ensures Mirror(flat, m_baseSize, k, nodes[k].ptr[..])
      {
        MirrorWrote(old(flat), m_baseSize, j, off, chunk, flat, k, old(nodes[k].ptr[..]), nodes[k].ptr[..]);
      }
    }

    /** Moves the cursor on by `len` bytes of the current block; at the end of the block
        the next one becomes current. */
    method Advance(npos: nat, len: nat)
      requires Linked() && Cursor() && m_cur != null
      requires npos == m_position - Addr(m_baseSize, at) && npos + len <= m_baseSize
      modifies `m_position, `m_cur, `at
      ensures Linked() && Cursor()
      ensures m_position == old(m_position) + len
      ensures npos + len == m_baseSize ==> m_position == Addr(m_baseSize, at)
    {
      CursorStep(len);
      if m_cur.size == npos + len {
        m_cur := m_cur.next;
        at := at + 1;
      }
      m_position := m_position + len;
    }

    /** One step of the walk: copy into the current block and move on. */
    method Store(npos: nat, chunk: seq<byte>)
      requires Linked() && Cursor() && m_cur != null
      requires npos == m_position - Addr(m_baseSize, at) && npos + |chunk| <= m_baseSize
      modifies `m_position, `m_cur, `at, `flat, Repr
      ensures Linked() && Cursor()
      ensures Wrote(old(flat), old(m_position), chunk, flat) && |flat| == |old(flat)|
      ensures m_position == old(m_position) + |chunk|
      ensures npos + |chunk| == m_baseSize ==> m_position == Addr(m_baseSize, at)
    {
      PutChunk(m_cur.ptr, at, npos, chunk);
      Advance(npos, |chunk|);
    }

    /** The block walk of `Write`. */
    method CopyIn(buf: seq<byte>) returns (r: Result<()>)
      requires Linked() && Cursor() && |buf| > 0 && m_cur != null
      modifies `m_position, `m_cur, `at, `flat, Repr
      ensures r == if |buf| <= old(Room()) then Ok(()) else NullDereference
      ensures Linked() && Cursor()
      ensures r.Ok? ==> m_position == old(m_position) + |buf|
      ensures r.Ok? ==> Wrote(old(flat), old(m_position), buf, flat)
    {
      hide Wrote;
      CursorOffset();
      WroteNothing(flat, m_position);
      var npos := m_position % m_baseSize;
      var ncap := m_cur.size - npos;
      var bpos, size := 0, |buf|;
      while size > 0
        invariant Linked() && Cursor()
        invariant 0 <= size && bpos + size == |buf| && m_position == old(m_position) + bpos
        invariant size > 0 ==> m_cur != null && npos == m_position - Addr(m_baseSize, at) && ncap == m_baseSize - npos
        invariant |flat| == |old(flat)| && Wrote(old(flat), old(m_position), buf[..bpos], flat)
      {
        var len := if ncap >= size then size else ncap;
        ghost var mid := flat;
        Store(npos, buf[bpos..bpos + len]);
        WroteMore(old(flat), mid, flat, old(m_position), buf, bpos, len);
        bpos, size := bpos + len, size - len;
        if size > 0 {
          if m_cur == null {
            return NullDereference;
          }
          npos, ncap := 0, m_cur.size;
        }
      }
      assert buf[..bpos] == buf;
      r := Ok(());
    }

    lemma NothingWritten(buf: seq<byte>)
      requires Valid() && buf == []
      ensures Splice(flat, m_position, buf) == flat && Splice(Contents(), m_position, buf) == Contents()
    {
    }

    lemma NothingToGrow()
      requires Valid()
      ensures Suffices(m_baseSize, Room(), 0) && GrownRoom(m_baseSize, Room(), 0) == Room()
      ensures Viewed([], Cut(m_baseSize, m_position, 0))
    {
    }

    /** After growth for a request that is not empty the cursor is in a block. */
    lemma {:induction false} RoomFor(room: nat, n: nat)
      requires Linked() && Cursor() && n > 0 && Room() == GrownRoom(m_baseSize, room, n)
      ensures m_cur != null && Cut(m_baseSize, m_position, n) ==
                               CutFrom(m_baseSize, at, m_position - Addr(m_baseSize, at), n)
    {
      DivMod(m_baseSize, at, m_position - Addr(m_baseSize, at));
      if room == 0 {
        GrowthFromNothing(m_baseSize, n);
        AddrMonotone(m_baseSize, 1, GrowthCount(m_baseSize, 0, n));
      }
    }

    /** Writes `buf` at the cursor. The blocks that growth appends are enough exactly when
        `Suffices` says so; otherwise the walk runs off the last block. */
    method Write(buf: seq<byte>) returns (r: Result<()>)
      requires Valid()
      modifies this, Repr
      ensures r == if Suffices(m_baseSize, old(Room()), |buf|) then Ok(()) else NullDereference
      ensures r.Ok? ==> Valid() && fresh(Repr - old(Repr))
      ensures r.Ok? ==> Room() + |buf| == GrownRoom(m_baseSize, old(Room()), |buf|)
      ensures r.Ok? ==> m_position == old(m_position) + |buf|
      ensures r.Ok? ==> m_size == if m_position > old(m_size) then m_position else old(m_size)
      ensures r.Ok? ==> Splice(old(flat), old(m_position), buf) <= flat
      ensures r.Ok? ==> Contents() == Splice(old(Contents()), old(m_position), buf)
      ensures m_endian == old(m_endian)
    {
      hide Mirror, Wrote, Splice, Suffices, GrownRoom;
      if |buf| == 0 {
        NothingWritten(buf);
        NothingToGrow();
        return Ok(());
      }
      AddCapacity(|buf|);
      RoomFor(old(Room()), |buf|);
      GrowthSuffices(m_baseSize, old(Room()), |buf|);
      ghost var grown := flat;
      r := CopyIn(buf);
      if r.Ok? {
        WrittenFile(old(flat), grown, flat, m_size, old(m_position), buf);
        if m_position > m_size {
          m_size := m_position;
        }
      }
    }

    /** A run of bytes inside a block is the run of the flat file at its address. */
    lemma {:induction false} BlockBytes(j: nat, off: nat, len: nat)
      requires Linked() && j < |nodes| && off + len <= m_baseSize
      ensures nodes[j].ptr.Length == m_baseSize
      ensures Copied(nodes[j].ptr[off..off + len], flat, Addr(m_baseSize, j) + off)
    {
      ghost var block := nodes[j].ptr[..];
      assert Mirror(flat, m_baseSize, j, block);
      assert nodes[j].ptr[off..off + len] == block[off..off + len];
    }

    /** The block walk of `Read`. */
    method CopyOut(n: nat) returns (buf: seq<byte>)
      requires Linked() && Cursor() && m_cur != null && n <= Room()
      modifies `m_position, `m_cur, `at
      ensures Linked() && Cursor()
      ensures m_position == old(m_position) + n
      ensures |buf| == n && Copied(buf, flat, old(m_position))
    {
      CursorOffset();
      CopiedNothing(flat, m_position);
      hide Copied;
      var npos := m_position % m_baseSize;
      var ncap := m_cur.size - npos;
      var size := n;
      buf := [];
      while size > 0
        invariant Linked() && Cursor()
        invariant 0 <= size && |buf| + size == n && m_position == old(m_position) + |buf|
        invariant size > 0 ==> m_cur != null && npos == m_position - Addr(m_baseSize, at) && ncap == m_baseSize - npos
        invariant Copied(buf, flat, old(m_position))
      {
        var len := if ncap >= size then size else ncap;
        BlockBytes(at, npos, len);
        var chunk := m_cur.ptr[npos..npos + len];
        CopiedMore(buf, chunk, flat, old(m_position));
        buf := buf + chunk;
        Advance(npos, len);
        size := size - len;
        if size > 0 {
          npos, ncap := 0, m_cur.size;
        }
      }
    }

    method Read(n: nat) returns (r: Result<seq<byte>>)
      requires Valid()
      modifies `m_position, `m_cur, `at
      ensures Valid()
      ensures r == OutOfRange <==> n > m_size - old(m_position)
      ensures r == NullDereference <==> n == 0 && old(m_position) == m_capacity
      ensures r == Take(old(Rest()), Edge(), n)
      ensures m_position == old(m_position) + if r.Ok? then n else 0
      ensures r.Ok? ==> m_position <= |flat| && r.value == flat[old(m_position)..m_position]
    {
      if n > ReadSize() {
        return OutOfRange;
      }
      if m_cur == null {
        return NullDereference;
      }
      var buf := CopyOut(n);
      assert buf == old(Rest())[..n];
      r := Ok(buf);
    }

    method SetPosition(v: nat) returns (r: Result<()>)
      requires Valid()
      modifies `m_position, `m_size, `m_cur, `at
      ensures Valid()
      ensures r == if v > m_capacity then OutOfRange else Ok(())
      ensures r.Ok? ==> m_position == v && m_size == if v > old(m_size) then v else old(m_size)
      ensures !r.Ok? ==> m_position == old(m_position) && m_size == old(m_size)
    {
      if v > m_capacity {
        return OutOfRange;
      }
      m_position := v;
      if m_position > m_size {
        m_size := m_position;
      }
      Seek(v);
      r := Ok(());
    }

    /** Finds the block of address `v` from the first block on. */
    method Seek(v: nat)
      requires Linked() && v <= m_capacity
      modifies `m_cur, `at
      ensures at <= |nodes| && m_cur == At(at)
      ensures Addr(m_baseSize, at) <= v < Addr(m_baseSize, at) + m_baseSize
      ensures at == |nodes| <==> v == m_capacity
    {
      hide Linked;
      ToFirst();
      var rest := v;
      Boundary(0);
      NodeFields(0);
      while rest > m_cur.size
        invariant Linked() && at < |nodes| && m_cur == nodes[at]
        invariant 0 <= rest && Addr(m_baseSize, at) + rest == v
        decreases rest
      {
        Boundary(at);
        NodeFields(at);
        NodeFields(at + 1);
        rest := rest - m_cur.size;
        ToNext();
      }
      Boundary(at);
      NodeFields(at);
      if rest == m_cur.size {
        ToNext();
      }
    }

    method ToFirst()
      requires Linked()
      modifies `m_cur, `at
      ensures Linked() && at == 0 < |nodes| && m_cur == nodes[0]
    {
      m_cur, at := m_root, 0;
    }

    method ToNext()
      requires Linked() && at < |nodes| && m_cur == nodes[at]
      modifies `m_cur, `at
      ensures Linked() && at == old(at) + 1 && m_cur == At(at)
    {
      m_cur := m_cur.next;
      at := at + 1;
    }

    lemma Boundary(j: nat)
      requires Linked() && j < |nodes|
      ensures Addr(m_baseSize, j + 1) == Addr(m_baseSize, j) + m_baseSize <= m_capacity
      ensures j + 1 == |nodes| <==> Addr(m_baseSize, j + 1) == m_capacity
    {
      AddrMonotone(m_baseSize, j + 1, |nodes|);
    }

    lemma NodeFields(j: nat)
      requires Linked() && j < |nodes|
      ensures nodes[j].size == nodes[j].ptr.Length == m_baseSize >= 1 && nodes[j].next == At(j + 1)
    {
    }

    // ---- Scatter and gather ----

    ghost predicate Viewed(slices: seq<Slice>, ps: seq<Piece>)
      reads `nodes
    {
      && |slices| == |ps|
      && forall k | 0 <= k < |ps| ::
           && ps[k].block < |nodes|
           && slices[k] == Slice(nodes[ps[k].block].ptr, ps[k].off, ps[k].len)
    }

    lemma ViewedNothing()
      ensures Viewed([], [])
    {
    }

    lemma ViewedMore(slices: seq<Slice>, ps: seq<Piece>, piece: Piece)
      requires Viewed(slices, ps) && piece.block < |nodes|
      ensures Viewed(slices + [Slice(nodes[piece.block].ptr, piece.off, piece.len)], ps + [piece])
    {
    }

    /** The walk of the buffer getters: the blocks from the cursor on, cut to `n` bytes. */
    method View(n: nat) returns (r: Result<seq<Slice>>)
      requires Linked() && Cursor() && m_cur != null
      ensures r.Ok? <==> n <= Room()
      ensures !r.OutOfRange?
      ensures r.Ok? ==> Viewed(r.value, CutFrom(m_baseSize, at, m_position - Addr(m_baseSize, at), n))
    {
      hide CutFrom, Viewed, Linked;
      CursorOffset();
      ghost var goal := CutFrom(m_baseSize, at, m_position - Addr(m_baseSize, at), n);
      CutNothing(m_baseSize, at, m_position - Addr(m_baseSize, at));
      NodeFields(at);
      ViewedNothing();
      var npos := m_position % m_baseSize;
      var cur := m_cur;
      var ncap := cur.size - npos;
      var len := n;
      var buffers: seq<Slice> := [];
      ghost var j: nat := at;
      ghost var done: seq<Piece> := [];
      while len > 0
        invariant 0 <= len && (len == 0 ==> n <= Room() && done == goal)
        invariant len > 0 ==> j < |nodes| && cur == nodes[j] && 0 <= npos < m_baseSize && ncap == m_baseSize - npos
        invariant len > 0 ==> Addr(m_baseSize, j) + npos + len == m_position + n
        invariant len > 0 ==> done + CutFrom(m_baseSize, j, npos, len) == goal
        invariant Viewed(buffers, done)
      {
        Boundary(j);
        NodeFields(j);
        CutStep(m_baseSize, j, npos, len, done, goal);
        var iov := Slice(cur.ptr, npos, if ncap >= len then len else ncap);
        ViewedMore(buffers, done, Piece(j, npos, iov.len));
        buffers := buffers + [iov];
        done := done + [Piece(j, npos, iov.len)];
        len := len - iov.len;
        if len > 0 {
          if cur.next == null {
            return NullDereference;
          }
          NodeFields(j + 1);
          cur := cur.next;
          npos, ncap := 0, cur.size;
          j := j + 1;
        }
      }
      r := Ok(buffers);
    }

    /** The readable bytes from the cursor, at most `n`, as slices of the blocks. */
    method GetReadBuffers(n: nat) returns (r: Result<seq<Slice>>)
      requires Valid()
      ensures r.Ok? && Viewed(r.value, Cut(m_baseSize, m_position, if n > ReadSize() then ReadSize() else n))
    {
      var len := if n > ReadSize() then ReadSize() else n;
      if len == 0 {
        return Ok([]);
      }
      CursorOffset();
      CursorBlock();
      r := View(len);
    }

    /** Room for `n` bytes from the cursor, as slices of the blocks. */
    method GetWriteBuffers(n: nat) returns (r: Result<seq<Slice>>)
      requires Valid()
      modifies this, Repr
      ensures Valid() && fresh(Repr - old(Repr))
      ensures r.Ok? <==> Suffices(m_baseSize, old(Room()), n)
      ensures !r.OutOfRange?
      ensures Room() == GrownRoom(m_baseSize, old(Room()), n)
      ensures r.Ok? ==> n <= Room() && Viewed(r.value, Cut(m_baseSize, m_position, n))
      ensures m_position == old(m_position) && m_size == old(m_size) && m_endian == old(m_endian)
      ensures old(flat) <= flat
    {
      hide Linked, Suffices, GrownRoom, Viewed, Cut, CutFrom;
      if n == 0 {
        NothingToGrow();
        return Ok([]);
      }
      AddCapacity(n);
      RoomFor(old(Room()), n);
      GrowthSuffices(m_baseSize, old(Room()), n);
      r := View(n);
    }

    /** Slice `k` is inside its block, at the address behind the slices before it. */
    lemma {:induction false} SliceStep(slices: seq<Slice>, ps: seq<Piece>, p: nat, k: nat)
      requires Viewed(slices, ps) && Consecutive(m_baseSize, ps, p) && k < |ps|
      ensures |slices| == |ps| && ps[k].block < |nodes| && ps[k].off + ps[k].len <= m_baseSize
      ensures slices[k] == Slice(nodes[ps[k].block].ptr, ps[k].off, ps[k].len)
      ensures Addr(m_baseSize, ps[k].block) + ps[k].off == p + Total(ps[..k])
      ensures Total(ps[..k + 1]) == Total(ps[..k]) + ps[k].len <= Total(ps)
    {
      ConsecutiveAt(m_baseSize, ps, p, k);
      TotalStep(ps, k);
    }

    lemma {:induction false} GatherStep(slices: seq<Slice>, ps: seq<Piece>, p: nat, k: nat, data: seq<byte>)
      requires Linked() && Viewed(slices, ps) && Consecutive(m_baseSize, ps, p) && k < |ps|
      requires |data| == Total(ps[..k]) && Copied(data, flat, p)
      ensures |slices| == |ps| && slices[k].off + slices[k].len <= slices[k].ptr.Length
      ensures var more := data + slices[k].ptr[slices[k].off..slices[k].off + slices[k].len];
              |more| == Total(ps[..k + 1]) && Copied(more, flat, p)
    {
      SliceStep(slices, ps, p, k);
      BlockBytes(ps[k].block, ps[k].off, ps[k].len);
      NodeFields(ps[k].block);
      hide Linked, Copied, Viewed, Consecutive, Total;
      CopiedMore(data, slices[k].ptr[slices[k].off..slices[k].off + slices[k].len], flat, p);
    }

    /** Output takes the bytes of the slices, one after the other. */
    method Gather(slices: seq<Slice>, ghost ps: seq<Piece>, ghost p: nat) returns (data: seq<byte>)
      requires Linked() && p + Total(ps) <= m_capacity
      requires Viewed(slices, ps) && Consecutive(m_baseSize, ps, p)
      ensures |data| == Total(ps) && Copied(data, flat, p)
    {
      data := [];
      CopiedNothing(flat, p);
      assert |slices| == |ps| && Total(ps[..0]) == 0;
      hide Linked, Copied, Viewed, Consecutive, Total;
      for k := 0 to |slices|
        invariant |data| == Total(ps[..k]) && Copied(data, flat, p)
      {
        GatherStep(slices, ps, p, k, data);
        data := data + slices[k].ptr[slices[k].off..slices[k].off + slices[k].len];
      }
      assert ps[..|ps|] == ps;
    }

    /** Reading through slices shows the bytes that `Read` would return, and leaves the
        cursor alone. */
    method PeekThroughBuffers(n: nat) returns (data: seq<byte>)
      requires Valid()
      ensures data == Rest()[..if n > |Rest()| then |Rest()| else n]
    {
      var slices := GetReadBuffers(n);
      ghost var len := if n > ReadSize() then ReadSize() else n;
      CutCovers(m_baseSize, m_position, len);
      data := Gather(slices.value, Cut(m_baseSize, m_position, len), m_position);
      assert data == Rest()[..len];
    }

    /** The positional `read`, at the cursor: it leaves the cursor where it is. */
    method ReadInPlace(n: nat) returns (buf: seq<byte>)
      requires Linked() && Cursor() && m_cur != null && n <= Room()
      ensures |buf| == n && Copied(buf, flat, m_position)
    {
      hide Linked, Copied;
      buf := [];
      var size := n;
      CursorOffset();
      NodeFields(at);
      CopiedNothing(flat, m_position);
      var npos := m_position % m_baseSize;
      var cur := m_cur;
      var ncap := cur.size - npos;
      ghost var j: nat := at;
      while size > 0
        invariant 0 <= size && |buf| + size == n && Copied(buf, flat, m_position)
        invariant size > 0 ==> j < |nodes| && cur == nodes[j] && 0 <= npos < m_baseSize && ncap == m_baseSize - npos
        invariant size > 0 ==> Addr(m_baseSize, j) + npos == m_position + |buf|
      {
        Boundary(j);
        NodeFields(j);
        var len := if ncap >= size then size else ncap;
        BlockBytes(j, npos, len);
        var chunk := cur.ptr[npos..npos + len];
        CopiedMore(buf, chunk, flat, m_position);
        buf := buf + chunk;
        size := size - len;
        if size > 0 {
          NodeFields(j + 1);
          cur := cur.next;
          npos, ncap := 0, cur.size;
          j := j + 1;
        }
      }
    }

    /** `[m_position, m_size)` without moving the cursor. */
    method ToString() returns (str: seq<byte>)
      requires Valid()
      ensures str == Rest()
    {
      str := [];
      if ReadSize() == 0 {
        return;
      }
      str := ReadInPlace(ReadSize());
    }

    /** Input lands in one slice, behind what landed before. */
    method FillSlice(slice: Slice, ghost piece: Piece, ghost before: seq<byte>, ghost p: nat, data: seq<byte>,
                     bpos: nat)
      requires Linked() && piece.block < |nodes| && piece.off + piece.len <= m_baseSize
      requires slice == Slice(nodes[piece.block].ptr, piece.off, piece.len)
      requires Addr(m_baseSize, piece.block) + piece.off == p + bpos && bpos + piece.len <= |data|
      requires Wrote(before, p, data[..bpos], flat) && p + |data| <= |before| == |flat|
      modifies `flat, slice.ptr
      ensures Linked() && |flat| == |before| && Wrote(before, p, data[..bpos + slice.len], flat)
    {
      hide Wrote;
      ghost var mid := flat;
      PutChunk(slice.ptr, piece.block, slice.off, data[bpos..bpos + slice.len]);
      WroteMore(before, mid, flat, p, data, bpos, slice.len);
    }

    /** Input lands in the slices, one after the other. */
    method Scatter(slices: seq<Slice>, ghost ps: seq<Piece>, ghost p: nat, data: seq<byte>)
      requires Linked() && p + |data| <= m_capacity
      requires Viewed(slices, ps) && Consecutive(m_baseSize, ps, p) && Total(ps) == |data|
      modifies `flat, Repr
      ensures Linked() && Wrote(old(flat), p, data, flat)
    {
      assert p + |data| <= |flat| && |slices| == |ps| && Total(ps[..0]) == 0;
      hide Wrote, Linked, Viewed, Consecutive, Total;
      var bpos := 0;
      WroteNothing(flat, p);
      for k := 0 to |slices|
        invariant Linked() && Viewed(slices, ps) && |data| <= |flat| - p
        invariant bpos == Total(ps[..k]) <= |data|
        invariant |flat| == |old(flat)| && Wrote(old(flat), p, data[..bpos], flat)
      {
        SliceStep(slices, ps, p, k);
        FillSlice(slices[k], ps[k], old(flat), p, data, bpos);
        bpos := bpos + slices[k].len;
      }
      assert ps[..|ps|] == ps && data[..bpos] == data;
    }

    /** Fill the slices of `GetWriteBuffers` and move the cursor behind them. The file ends
        up as `Write` of the same bytes leaves it, and is defined in the same cases. */
    method WriteThroughBuffers(buf: seq<byte>) returns (r: Result<()>)
      requires Valid()
      modifies this, Repr
      ensures r == if Suffices(m_baseSize, old(Room()), |buf|) then Ok(()) else NullDereference
      ensures r.Ok? ==> Valid() && fresh(Repr - old(Repr))
      ensures r.Ok? ==> Room() + |buf| == GrownRoom(m_baseSize, old(Room()), |buf|)
      ensures r.Ok? ==> m_position == old(m_position) + |buf|
      ensures r.Ok? ==> m_size == if m_position > old(m_size) then m_position else old(m_size)
      ensures r.Ok? ==> Splice(old(flat), old(m_position), buf) <= flat
      ensures r.Ok? ==> Contents() == Splice(old(Contents()), old(m_position), buf)
      ensures m_endian == old(m_endian)
    {
      hide Splice, Suffices, Wrote, Mirror, Viewed, Consecutive, Total, GrownRoom;
      var slices := GetWriteBuffers(|buf|);
      if !slices.Ok? {
        return NullDereference;
      }
      ghost var grown := flat;
      CutCovers(m_baseSize, m_position, |buf|);
      Scatter(slices.value, Cut(m_baseSize, m_position, |buf|), m_position, buf);
      WrittenFile(old(flat), grown, flat, m_size, old(m_position), buf);
      r := SetPosition(m_position + |buf|);
    }
  }
}
