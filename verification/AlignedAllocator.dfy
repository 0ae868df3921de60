/** any_completion_handler_impl::allocate and deallocate: an aligned block is carved out of a larger
    allocation, and the way back to that allocation is hidden in a trailer behind the block. */
module AlignedAllocator {
  import opened AsioTypes

  /** sizeof(std::ptrdiff_t). */
  const TRAILER: nat := 8

  /** The greatest power of two that a size_t can hold. Nothing below needs the alignment to be a power of
      two. */
  const MAX_ALIGN: nat := 0x8000_0000_0000_0000

  // --- The representation of an offset as bytes ---

  function Pow256(k: nat): nat {
    if k == 0 then 1 else 256 * Pow256(k - 1)
  }

  /** The k lowest bytes of n, least significant first. */
  function ToBytes(n: nat, k: nat): (bytes: seq<Byte>)
    ensures |bytes| == k
  {
    if k == 0 then [] else [n % 256] + ToBytes(n / 256, k - 1)
  }

  function FromBytes(bytes: seq<Byte>): nat {
    if bytes == [] then 0 else bytes[0] + 256 * FromBytes(bytes[1..])
  }

  lemma {:induction false} BytesRoundTrip(n: nat, k: nat)
    requires n < Pow256(k)
    ensures FromBytes(ToBytes(n, k)) == n
  {
    if k > 0 {
      BytesRoundTrip(n / 256, k - 1);
      assert ToBytes(n, k)[1..] == ToBytes(n / 256, k - 1);
    }
  }

  /** A std::ptrdiff_t read from memory: two's complement. */
  function Signed(n: nat): int {
    if n < 0x8000_0000_0000_0000 then n else n - ADDRESS_SPACE
  }

  /** An offset that is stored with memcpy is read back as the same number. */
  lemma OffsetRoundTrip(off: nat)
    requires off < MAX_ALIGN
    ensures Signed(FromBytes(ToBytes(off, TRAILER))) == off
  {
    assert Pow256(4) == 0x1_0000_0000;
    assert Pow256(8) == ADDRESS_SPACE;
    BytesRoundTrip(off, TRAILER);
  }

  // --- std::align ---

  /** std::align(alignment, size, ptr, space): the first aligned address in the space, if size bytes fit
      behind it. */
  function Align(alignment: nat, size: nat, ptr: nat, space: nat): (p: Option<nat>)
    requires alignment > 0
    ensures p.Some? ==> p.value % alignment == 0 && ptr <= p.value < ptr + alignment && p.value + size <= ptr + space
    ensures size + alignment - 1 <= space ==> p.Some?
  {
    var over := ptr % alignment;
    var padding := if over == 0 then 0 else alignment - over;
    AlignsUp(ptr, alignment);
    if size + padding <= space then Some(ptr + padding) else None
  }

  lemma AlignsUp(ptr: nat, alignment: nat)
    requires alignment > 0
    ensures var over := ptr % alignment;
            (ptr + if over == 0 then 0 else alignment - over) % alignment == 0
  {
    var q, over := ptr / alignment, ptr % alignment;
    assert ptr == q * alignment + over;
    if over > 0 {
      assert ptr + alignment - over == (q + 1) * alignment;
      MultipleHasNoRemainder(q + 1, alignment);
    }
  }

  lemma MultipleHasNoRemainder(q: nat, d: nat)
    requires d > 0
    ensures (q * d) % d == 0
  {
    var gap: int := q - q * d / d;
    assert gap * d == (q * d) % d;
    MultiplesAreApart(gap, d);
  }

  lemma MultiplesAreApart(gap: int, d: int)
    requires d > 0
    ensures gap >= 1 ==> gap * d >= d
    ensures gap <= -1 ==> gap * d <= -d
  {
    if gap >= 1 {
      assert (gap - 1) * d >= 0;
    } else if gap <= -1 {
      assert (gap + 1) * d <= 0;
    }
  }

  // --- The allocator ---

  /** A live request of a user: the base allocation behind it, its size and its alignment. */
  datatype Request = Request(base: nat, size: nat, align: nat)

  /** The bytes that allocate asks the base allocator for. */
  function BaseSize(size: nat, align: nat): int {
    size + align - 1 + TRAILER
  }

  /** The block at p lies in its base allocation, aligned and with room for the trailer, and the trailer
      tells the way back. */
  ghost predicate LiveOk(memory: seq<Byte>, blocks: map<nat, nat>, p: nat, r: Request) {
    && 0 < r.align && r.base in blocks && blocks[r.base] == BaseSize(r.size, r.align)
    && p % r.align == 0 && r.base <= p < r.base + r.align
    && p + r.size + TRAILER <= |memory|
    && ReadOffset(memory, p + r.size) == p - r.base
  }

  /** memcpy(&off, at, sizeof(off)). */
  function ReadOffset(memory: seq<Byte>, at: nat): int
    requires at + TRAILER <= |memory|
  {
    Signed(FromBytes(memory[at..at + TRAILER]))
  }

  /** A block stays intact as long as its trailer and its base allocation do. */
  lemma LiveStaysOk(memory: seq<Byte>, memory': seq<Byte>, blocks: map<nat, nat>, blocks': map<nat, nat>, p: nat, r: Request)
    requires LiveOk(memory, blocks, p, r) && |memory| == |memory'|
    requires r.base in blocks' && blocks'[r.base] == blocks[r.base]
    requires forall a {:trigger memory'[a]} :: p + r.size <= a < p + r.size + TRAILER ==> memory'[a] == memory[a]
    ensures LiveOk(memory', blocks', p, r)
  {
    var e := p + r.size;
    assert memory'[e..e + TRAILER] == memory[e..e + TRAILER];
  }

  /** Base blocks lie in memory and apart. */
  ghost predicate BlocksOk(size: nat, blocks: map<nat, nat>) {
    && (forall b :: b in blocks ==> 0 < blocks[b] && b + blocks[b] <= size)
    && (forall b, c :: b in blocks && c in blocks && b < c ==> b + blocks[b] <= c)
  }

  /** Every live request has its own intact block. */
  ghost predicate AllocatorOk(memory: seq<Byte>, blocks: map<nat, nat>, live: map<nat, Request>) {
    && BlocksOk(|memory|, blocks)
    && (forall p :: p in live ==> LiveOk(memory, blocks, p, live[p]))
    && (forall p, q :: p in live && q in live && p != q ==> live[p].base != live[q].base)
  }

  /** Two live blocks, each with its trailer, have no byte in common. */
  lemma LiveBlocksAreDisjoint(memory: seq<Byte>, blocks: map<nat, nat>, live: map<nat, Request>, p: nat, q: nat)
    requires AllocatorOk(memory, blocks, live) && p in live && q in live && p != q
    ensures p + live[p].size + TRAILER <= q || q + live[q].size + TRAILER <= p
  {
    assert LiveOk(memory, blocks, p, live[p]) && LiveOk(memory, blocks, q, live[q]);
    var b, c := live[p].base, live[q].base;
    assert if b < c then b + blocks[b] <= c else c + blocks[c] <= b;
  }

  /** A new base block is apart from every block that is live. */
  lemma NewBlockIsApart(memory: seq<Byte>, blocks: map<nat, nat>, blocks': map<nat, nat>, p: nat, r: Request, base: nat, n: nat)
    requires LiveOk(memory, blocks, p, r)
    requires base !in blocks && blocks' == blocks[base := n] && BlocksOk(|memory|, blocks')
    ensures r.base != base && (p + r.size + TRAILER <= base || base + n <= p)
  {
    assert r.base in blocks' && base in blocks' && blocks'[r.base] == blocks[r.base];
    assert if r.base < base then r.base + blocks'[r.base] <= base else base + n <= r.base;
  }

  lemma GrantKeepsOne(memory: seq<Byte>, memory': seq<Byte>, blocks: map<nat, nat>, blocks': map<nat, nat>,
                      q: nat, rq: Request, p: nat, r: Request)
    requires LiveOk(memory, blocks, q, rq) && |memory| == |memory'|
    requires r.base !in blocks && blocks' == blocks[r.base := BaseSize(r.size, r.align)] && BlocksOk(|memory|, blocks')
    requires LiveOk(memory', blocks', p, r)
    requires forall a {:trigger memory'[a]} :: 0 <= a < |memory| && !(p + r.size <= a < p + r.size + TRAILER) ==> memory'[a] == memory[a]
    ensures q != p && rq.base != r.base && LiveOk(memory', blocks', q, rq)
  {
    NewBlockIsApart(memory, blocks, blocks', q, rq, r.base, BaseSize(r.size, r.align));
    LiveStaysOk(memory, memory', blocks, blocks', q, rq);
  }

  /** A new base block in which nothing but the trailer has been written can serve a new request. */
  lemma GrantKeepsOk(memory: seq<Byte>, memory': seq<Byte>, blocks: map<nat, nat>, blocks': map<nat, nat>,
                     live: map<nat, Request>, p: nat, r: Request)
    requires AllocatorOk(memory, blocks, live) && |memory| == |memory'|
    requires r.base !in blocks && blocks' == blocks[r.base := BaseSize(r.size, r.align)] && BlocksOk(|memory|, blocks')
    requires LiveOk(memory', blocks', p, r)
    requires forall a {:trigger memory'[a]} :: 0 <= a < |memory| && !(p + r.size <= a < p + r.size + TRAILER) ==> memory'[a] == memory[a]
    ensures p !in live && AllocatorOk(memory', blocks', live[p := r])
  {
    forall q | q in live
      ensures q != p && live[q].base != r.base && LiveOk(memory', blocks', q, live[q])
    {
      GrantKeepsOne(memory, memory', blocks, blocks', q, live[q], p, r);
    }
  }

  /** Writing inside a block disturbs no trailer. */
  lemma WriteKeepsOk(memory: seq<Byte>, blocks: map<nat, nat>, live: map<nat, Request>, p: nat, i: nat, value: Byte)
    requires AllocatorOk(memory, blocks, live) && p in live && i < live[p].size
    ensures p + i < |memory| && AllocatorOk(memory[p + i := value], blocks, live)
  {
    assert LiveOk(memory, blocks, p, live[p]);
    forall q | q in live
      ensures LiveOk(memory[p + i := value], blocks, q, live[q])
    {
      if q != p {
        LiveBlocksAreDisjoint(memory, blocks, live, p, q);
      }
      assert LiveOk(memory, blocks, q, live[q]);
      LiveStaysOk(memory, memory[p + i := value], blocks, blocks, q, live[q]);
    }
  }

  lemma ReturnKeepsOk(memory: seq<Byte>, blocks: map<nat, nat>, live: map<nat, Request>, p: nat)
    requires AllocatorOk(memory, blocks, live) && p in live
    ensures AllocatorOk(memory, blocks - {live[p].base}, live - {p})
  {
    var blocks', live' := blocks - {live[p].base}, live - {p};
    forall q | q in live'
      ensures LiveOk(memory, blocks', q, live'[q])
    {
      assert LiveOk(memory, blocks, q, live[q]) && live[q].base != live[p].base;
      LiveStaysOk(memory, memory, blocks, blocks', q, live[q]);
    }
  }

  /** Two states of the memory differ at most within n bytes from base. */
  ghost predicate SameOutside(memory: seq<Byte>, memory': seq<Byte>, base: nat, n: int) {
    && |memory| == |memory'|
    && forall a {:trigger memory'[a]} :: 0 <= a < |memory| && !(base <= a < base + n) ==> memory'[a] == memory[a]
  }

  lemma SameOutsideTwice(a: seq<Byte>, b: seq<Byte>, c: seq<Byte>, base: nat, n: int)
    requires SameOutside(a, b, base, n) && SameOutside(b, c, base, n)
    ensures SameOutside(a, c, base, n)
  {
  }

  lemma AddThenRemove<V>(m: map<nat, V>, k: nat, v: V)
    requires k !in m
    ensures m[k := v] - {k} == m
  {
  }

  class HandlerAllocator {
    const memory: array<Byte>

    // The base allocator's live blocks: address and length.
    var blocks: map<nat, nat>

    // The requests that have been granted and not been given back, by their address.
    ghost var live: map<nat, Request>

    // What the base allocator was asked for, and what it answered.
    ghost var requests: seq<(nat, Option<nat>)>

    ghost predicate Valid()
      reads this, memory
    {
      AllocatorOk(memory[..], blocks, live)
    }

    constructor (size: nat)
      ensures Valid() && fresh(memory) && memory.Length == size && live == map[] && blocks == map[] && requests == []
    {
      memory := new Byte[size](_ => 0);
      blocks, live, requests := map[], map[], [];
    }

    predicate IsFree(base: nat, n: nat)
      reads this
    {
      base + n <= memory.Length && forall b :: b in blocks ==> b + blocks[b] <= base || base + n <= b
    }

    /** The base allocator: any free place, or failure. */
    method BaseAllocate(n: nat) returns (base: Option<nat>)
      requires BlocksOk(memory.Length, blocks) && n > 0
      modifies this`blocks, this`requests
      ensures BlocksOk(memory.Length, blocks)
      ensures requests == old(requests) + [(n, base)]
      ensures base == None ==> blocks == old(blocks)
      ensures base.Some? ==> base.value !in old(blocks) && blocks == old(blocks)[base.value := n]
    {
      var place: nat := *;
      if IsFree(place, n) {
        blocks := blocks[place := n];
        base := Some(place);
      } else {
        base := None;
      }
      requests := requests + [(n, base)];
    }

    /** The base allocator takes back exactly what it gave. */
    method BaseDeallocate(base: nat, n: nat)
      requires BlocksOk(memory.Length, blocks) && base in blocks && blocks[base] == n
      modifies this`blocks
      ensures BlocksOk(memory.Length, blocks) && blocks == old(blocks) - {base}
    {
      blocks := blocks - {base};
    }

    /** memcpy(at, &off, sizeof(off)). */
    method WriteOffset(at: nat, off: nat)
      requires at + TRAILER <= memory.Length && off < MAX_ALIGN
      modifies memory
      ensures ReadOffset(memory[..], at) == off
      ensures forall a :: 0 <= a < memory.Length && !(at <= a < at + TRAILER) ==> memory[a] == old(memory[a])
    {
      var bytes := ToBytes(off, TRAILER);
      forall i | 0 <= i < TRAILER {
        memory[at + i] := bytes[i];
      }
      OffsetRoundTrip(off);
      assert memory[..][at..at + TRAILER] == bytes;
    }

    /** The part of allocate that works on the base block: the aligned address, and the trailer behind the
        block. */
    method Carve(base: nat, size: nat, align: nat) returns (at: nat)
      requires 0 < align <= MAX_ALIGN && base + BaseSize(size, align) <= memory.Length
      requires base in blocks && blocks[base] == BaseSize(size, align)
      modifies memory
      ensures base <= at < base + align && at + size + TRAILER <= base + BaseSize(size, align)
      ensures LiveOk(memory[..], blocks, at, Request(base, size, align))
      ensures forall a :: 0 <= a < memory.Length && !(at + size <= a < at + size + TRAILER) ==> memory[a] == old(memory[a])
    {
      var space := size + align - 1;
      at := Align(align, size, base, space).value;
      WriteOffset(at + size, at - base);
    }

    /** allocate(size, align). It makes one request of the base allocator and fails only if that does; the
        search for an aligned address never does. Memory changes nowhere but in the new base block. */
    method Allocate(size: nat, align: nat) returns (p: Option<nat>)
      requires Valid() && 0 < align <= MAX_ALIGN && BaseSize(size, align) <= SIZE_MAX
      modifies this, memory
      ensures Valid()
      ensures p.Some? ==> p.value in live
      ensures requests == old(requests) + [(size + align - 1 + 8, if p == None then None else Some(live[p.value].base))]
      ensures p.Some? ==>
                var base := live[p.value].base;
                && base <= p.value < base + align && p.value + size + 8 <= base + (size + align - 1 + 8)
                && p.value + size + 8 <= memory.Length
                && Signed(FromBytes(memory[p.value + size..p.value + size + 8])) == p.value - base
                && forall a :: 0 <= a < memory.Length && !(p.value + size <= a < p.value + size + 8) ==>
                     memory[a] == old(memory[a])
      ensures p == None ==> live == old(live) && blocks == old(blocks) && memory[..] == old(memory[..])
      ensures p.Some? ==>
                && p.value !in old(live) && p.value % align == 0
                && live[p.value].size == size && live[p.value].align == align
                && live == old(live)[p.value := live[p.value]]
                && live[p.value].base !in old(blocks)
                && blocks == old(blocks)[live[p.value].base := BaseSize(size, align)]
                && SameOutside(old(memory[..]), memory[..], live[p.value].base, BaseSize(size, align))
    {
      var base := BaseAllocate(size + align - 1 + TRAILER);
      if base == None {
        return None;
      }
      assert base.value in blocks;
      var at := Carve(base.value, size, align);
      ghost var r := Request(base.value, size, align);
      GrantKeepsOk(old(memory[..]), memory[..], old(blocks), blocks, live, at, r);
      live := live[at := r];
      p := Some(at);
    }

    /** A user writes a byte of a block. */
    method Write(p: nat, i: nat, value: Byte)
      requires Valid() && p in live && i < live[p].size
      modifies memory
      ensures Valid() && memory[..] == old(memory[..])[p + i := value]
    {
      WriteKeepsOk(memory[..], blocks, live, p, i, value);
      memory[p + i] := value;
      assert memory[..] == old(memory[..])[p + i := value];
    }

    /** deallocate(p, size, align). From the trailer, it recovers exactly the address and the byte count
        that allocate got from the base allocator. A null pointer is ignored. */
    method Deallocate(p: Option<nat>, size: nat, align: nat) returns (base: Option<nat>)
      requires Valid()
      requires p.Some? ==> p.value in live && live[p.value].size == size && live[p.value].align == align
      modifies this`blocks, this`live
      ensures Valid()
      ensures p == None ==> base == None && live == old(live) && blocks == old(blocks)
      ensures p.Some? ==>
                && base == Some(old(live)[p.value].base)
                && base.value in old(blocks) && old(blocks)[base.value] == size + align - 1 + 8
                && blocks == old(blocks) - {base.value} && live == old(live) - {p.value}
    {
      if p == None {
        return None;
      }
      assert LiveOk(memory[..], blocks, p.value, live[p.value]);
      var off := ReadOffset(memory[..], p.value + size);
      var at := p.value - off;
      ReturnKeepsOk(memory[..], blocks, live, p.value);
      BaseDeallocate(at, BaseSize(size, align));
      live := live - {p.value};
      base := Some(at);
    }

    /** Any writes of a user inside one block. */
    method WriteAll(p: nat, size: nat, writes: seq<(nat, Byte)>)
      requires Valid() && p in live && live[p].size == size
      modifies memory
      ensures Valid()
      ensures SameOutside(old(memory[..]), memory[..], live[p].base, BaseSize(live[p].size, live[p].align))
    {
      ghost var r := live[p];
      assert LiveOk(memory[..], blocks, p, r);
      for i := 0 to |writes|
        invariant Valid()
        invariant SameOutside(old(memory[..]), memory[..], r.base, BaseSize(r.size, r.align))
      {
        if writes[i].0 < size {
          Write(p, writes[i].0, writes[i].1);
        }
      }
    }

    /** The use of a block from its allocation on. */
    method UseAndReturn(p: nat, size: nat, align: nat, writes: seq<(nat, Byte)>)
      requires Valid() && p in live && live[p].size == size && live[p].align == align
      modifies this`blocks, this`live, memory
      ensures Valid() && blocks == old(blocks) - {old(live)[p].base} && live == old(live) - {p}
      ensures SameOutside(old(memory[..]), memory[..], old(live)[p].base, BaseSize(size, align))
    {
      WriteAll(p, size, writes);
      ghost var memory' := memory[..];
      var _ := Deallocate(Some(p), size, align);
      assert memory[..] == memory';
    }

    /** A whole use of a block, with any writes inside it: afterwards the base allocator has back exactly
        what it gave, and no byte outside the borrowed base block has changed. */
    method Borrow(size: nat, align: nat, writes: seq<(nat, Byte)>) returns (ghost base: Option<nat>)
      requires Valid() && 0 < align <= MAX_ALIGN && BaseSize(size, align) <= SIZE_MAX
      modifies this, memory
      ensures Valid() && blocks == old(blocks) && live == old(live)
      ensures requests == old(requests) + [(size + align - 1 + 8, base)]
      ensures base == None ==> memory[..] == old(memory[..])
      ensures base.Some? ==> SameOutside(old(memory[..]), memory[..], base.value, BaseSize(size, align))
    {
      base := None;
      var p := Allocate(size, align);
      if p != None {
        base := Some(live[p.value].base);
        AddThenRemove(old(live), p.value, live[p.value]);
        AddThenRemove(old(blocks), base.value, BaseSize(size, align));
        ghost var memory' := memory[..];
        assert SameOutside(old(memory[..]), memory', base.value, BaseSize(size, align));
        UseAndReturn(p.value, size, align, writes);
        SameOutsideTwice(old(memory[..]), memory', memory[..], base.value, BaseSize(size, align));
      }
    }
  }
}
