/** basic_streambuf: a growable get/put buffer over one vector. */
module StreamBuffer {
  import opened AsioTypes
  import opened FifoQueue

  const BUFFER_DELTA: SizeT := 128

  function Greater(a: SizeT, b: SizeT): SizeT {
    if a >= b then a else b
  }

  datatype PutResult = Returned(c: IntType) | LengthError

  /** How one client call ended. */
  datatype StepEnd = Stepped(obs: Obs) | Threw | OutOfRange

  /** The queue after a reserve that moved the contents down by g and then threw: the positions still
      describe the old place, part of which the move has overwritten. */
  function AfterFailedShift(c: seq<Byte>, g: nat): seq<Byte> {
    if g >= |c| then c else c[g..] + c[|c| - g..]
  }

  lemma AfterFailedShiftAt(c: seq<Byte>, g: nat, j: nat)
    requires j < |c|
    ensures |AfterFailedShift(c, g)| == |c|
    ensures AfterFailedShift(c, g)[j] == if j + g < |c| then c[j + g] else c[j]
  {
  }

  /** The formula describes the move: with the first p - g elements copied down by g and the rest as
      before, the old place reads as follows. */
  lemma ShiftedPlace(before: seq<Byte>, after: seq<Byte>, g: nat, p: nat)
    requires g <= p <= |before| == |after|
    requires forall i {:trigger after[i]} :: 0 <= i < |after| ==> after[i] == before[if i < p - g then i + g else i]
    ensures after[..p - g] == before[g..p]
    ensures after[g..p] == AfterFailedShift(before[g..p], g)
  {
    var c, moved := before[g..p], after[g..p];
    forall j | 0 <= j < |c|
      ensures moved[j] == AfterFailedShift(c, g)[j]
    {
      AfterFailedShiftAt(c, g, j);
      assert moved[j] == after[g + j] && c[j] == before[g + j];
      if j + g < |c| {
        assert c[j + g] == before[g + j + g];
      }
    }
    assert |AfterFailedShift(c, g)| == |c|;
  }

  /** Writing bytes over a sequence that starts at lo, at position at. */
  lemma Overwrite(before: seq<Byte>, after: seq<Byte>, lo: nat, hi: nat, at: nat, bytes: seq<Byte>)
    requires lo + at + |bytes| <= hi <= |before| == |after|
    requires forall i {:trigger after[i]} :: 0 <= i < |after| ==>
               after[i] == if lo + at <= i < lo + at + |bytes| then bytes[i - lo - at] else before[i]
    ensures after[lo..hi] == before[lo..hi][..at] + bytes + before[lo..hi][at + |bytes|..]
  {
    var old', new' := before[lo..hi], after[lo..hi];
    var spliced := old'[..at] + bytes + old'[at + |bytes|..];
    forall j | 0 <= j < |new'|
      ensures new'[j] == spliced[j]
    {
      assert new'[j] == after[lo + j];
    }
  }

  /** A failed shift leaves the queue as it was exactly when there was no shift, when the old and the
      new place do not overlap, or when the contents repeat with the distance of the shift. */
  lemma FailedShiftHarmless(c: seq<Byte>, g: nat)
    ensures AfterFailedShift(c, g) == c <==> g == 0 || g >= |c| || c[g..] == c[..|c| - g]
  {
    if 0 < g < |c| {
      var moved := AfterFailedShift(c, g);
      assert moved[..|c| - g] == c[g..];
      assert moved[|c| - g..] == c[|c| - g..];
      assert c == c[..|c| - g] + c[|c| - g..];
    }
  }

  /** The argument of pbump in commit(n) with avail writable bytes. */
  function CommitAdvance(avail: nat, n: nat): int {
    IntCast(Min(n, avail))
  }

  /** commit moves the documented number of characters exactly when an int can hold that number. */
  lemma CommitExact(avail: nat, n: nat)
    ensures CommitAdvance(avail, n) == Min(n, avail) <==> Min(n, avail) <= INT_MAX
  {
  }

  /** Between 2^31 and 2^32 characters, the put pointer moves back instead. */
  lemma CommitWraps(avail: nat, n: nat)
    requires INT_MAX < Min(n, avail) < INT_SPAN
    ensures CommitAdvance(avail, n) == Min(n, avail) - INT_SPAN < 0
  {
  }

  /** The pointer sum gptr() + n as a machine address, which may go round the end of the address
      space once. */
  function PointerSum(pointer: nat, n: nat): int {
    if pointer + n < ADDRESS_SPACE then pointer + n else pointer + n - ADDRESS_SPACE
  }

  /** The argument of gbump in consume(n), for storage at address with the get pointer at offset g and
      the put pointer at offset p. */
  function ConsumeAdvance(address: nat, g: nat, p: nat, n: nat): int
    requires g <= p
  {
    IntCast(if PointerSum(address + g, n) > address + p then p - g else n)
  }

  /** When consume(n) removes the documented number of characters. Besides the narrowing to int there
      is one more way to fail: a request beyond the size that is not recognised as such, because the
      pointer sum has gone round the end of the address space. It then has the right effect only if
      n narrowed to int happens to be the size. */
  predicate ConsumeInRange(address: nat, g: nat, p: nat, n: nat) {
    && Min(n, p - g) <= INT_MAX
    && (n <= p - g || address + g + n < ADDRESS_SPACE || IntCast(n) == p - g)
  }

  lemma ConsumeExact(address: nat, g: nat, p: nat, n: nat)
    requires g <= p && address + p <= SIZE_MAX && n <= SIZE_MAX
    ensures ConsumeAdvance(address, g, p, n) == Min(n, p - g) <==> ConsumeInRange(address, g, p, n)
  {
    if address + g + n >= ADDRESS_SPACE {
      assert PointerSum(address + g, n) <= address + p;
    }
  }

  /** Out of that range, what is narrowed to int is still determined: the request if the pointer sum goes
      round, and otherwise as much of it as there is. */
  lemma ConsumeOutOfRange(address: nat, g: nat, p: nat, n: nat)
    requires g <= p && address + p <= SIZE_MAX && n <= SIZE_MAX
    ensures ConsumeAdvance(address, g, p, n)
         == IntCast(if address + g + n >= ADDRESS_SPACE then n else Min(n, p - g))
  {
    if address + g + n >= ADDRESS_SPACE {
      assert PointerSum(address + g, n) <= address + p;
    }
  }

  /** The documentation promises that an n greater than the size consumes everything. Wherever the
      storage lies, the greatest n moves the get pointer back by one instead, except from address 0. */
  lemma ConsumeWraps(address: nat, g: nat, p: nat)
    requires g <= p && address + p <= SIZE_MAX
    ensures ConsumeAdvance(address, g, p, SIZE_MAX) == if address + g > 0 then -1 else IntCast(p - g)
  {
    IntCastIsLowHalf(SIZE_MAX);
  }

  /** The friend function read_size_helper, as a function of capacity, size, max_size and its
      argument. */
  function ReadSize(capacity: SizeT, size: SizeT, maxSize: SizeT, limit: SizeT): SizeT
    requires size <= capacity && size <= maxSize
  {
    var room := if 512 >= capacity - size then 512 else capacity - size;
    var most := if limit <= maxSize - size then limit else maxSize - size;
    if room <= most then room else most
  }

  class StreamBuf {
    const maxSize: SizeT

    // std::vector<char> buffer_: its storage (as long as the capacity), its size and its address.
    var buffer: array<Byte>
    var length: SizeT
    var address: nat

    // The get area: the storage its pointers point into, and their offsets in it.
    var getArea: array<Byte>
    var eback: int
    var gptr: int
    var egptr: int

    // The put area.
    var putArea: array<Byte>
    var pbase: int
    var pptr: int
    var epptr: int

    /** The class invariant. Both areas lie in the current storage, so no position dangles; the
        positions are ordered; the vector is exactly as long as the put area's end (but never empty);
        and that end never exceeds the maximum size. */
    ghost predicate Valid()
      reads this
    {
      && getArea == buffer && putArea == buffer
      && 0 == eback <= gptr <= egptr <= pptr <= epptr <= maxSize as int
      && 0 <= pbase <= pptr
      && length as int == Max(epptr, 1) <= buffer.Length
      && address + buffer.Length <= SIZE_MAX
    }

    /** What data() describes. */
    ghost function Contents(): seq<Byte>
      requires Valid()
      reads this, buffer
    {
      buffer[gptr..pptr]
    }

    /** The writable bytes behind the put pointer. */
    ghost function Spare(): seq<Byte>
      requires Valid()
      reads this, buffer
    {
      buffer[pptr..epptr]
    }

    ghost function Abs(): Fifo
      requires Valid()
      reads this, buffer
    {
      Fifo(gptr, Contents(), Spare())
    }

    constructor (maximumSize: SizeT)
      ensures Valid() && fresh(buffer)
      ensures maxSize == maximumSize
      ensures Contents() == [] && |Spare()| == Min(maximumSize as int, 128)
    {
      var pend := if maximumSize <= BUFFER_DELTA then maximumSize else BUFFER_DELTA;
      var n := Greater(pend, 1);
      var storage := new Byte[n](_ => 0);
      var place: nat := *;
      if place + n as int > SIZE_MAX {
        place := 0;
      }
      maxSize := maximumSize;
      buffer, length, address := storage, n, place;
      getArea, eback, gptr, egptr := storage, 0, 0, 0;
      putArea, pbase, pptr, epptr := storage, 0, 0, pend as int;
    }

    method Size() returns (n: SizeT)
      requires Valid()
      ensures n as int == |Contents()| && n <= maxSize
    {
      n := (pptr - gptr) as SizeT;
    }

    method Data() returns (bytes: seq<Byte>)
      requires Valid()
      ensures bytes == Contents()
    {
      bytes := getArea[gptr..pptr];
    }

    /** std::vector::resize. Within the capacity it works in place; beyond it, the elements move to
        new storage of any sufficient capacity, anywhere in the address space. */
    method ResizeVector(n: SizeT)
      requires length as int <= buffer.Length
      requires address + buffer.Length <= SIZE_MAX
      modifies this`buffer, this`length, this`address, buffer
      ensures length == n && n as int <= buffer.Length && address + buffer.Length <= SIZE_MAX
      ensures buffer == old(buffer) || fresh(buffer)
      ensures n as int <= old(buffer.Length) ==> buffer == old(buffer)
      ensures forall i :: 0 <= i < Min(n as int, old(length) as int) ==> buffer[i] == old(buffer[i])
    {
      if n as int <= buffer.Length {
        forall i | length as int <= i < n as int {
          buffer[i] := 0;
        }
      } else {
        var capacity: nat := *;
        if capacity < n as int || capacity > SIZE_MAX {
          capacity := n as int;
        }
        var place: nat := *;
        if place + capacity > SIZE_MAX {
          place := 0;
        }
        var storage := new Byte[capacity](_ => 0);
        forall i | 0 <= i < length as int {
          storage[i] := buffer[i];
        }
        buffer, address := storage, place;
      }
      length := n;
    }

    /** memmove(&buffer_[0], &buffer_[0] + g, count): everything is read before anything is written. */
    method MoveDown(g: nat, count: nat)
      requires g + count <= buffer.Length
      modifies buffer
      ensures buffer[..count] == old(buffer[g..g + count])
      ensures buffer[g..g + count] == AfterFailedShift(old(buffer[g..g + count]), g)
    {
      forall i | 0 <= i < count {
        buffer[i] := buffer[i + g];
      }
      ShiftedPlace(old(buffer[..]), buffer[..], g, g + count);
      assert buffer[g..g + count] == buffer[..][g..g + count];
      assert old(buffer[g..g + count]) == old(buffer[..])[g..g + count];
      assert buffer[..count] == buffer[..][..count];
    }

    /** The part of reserve that shifts the contents to the start of the buffer. */
    method ShiftToFront() returns (pnext: SizeT)
      requires Valid()
      modifies buffer
      ensures pnext as int == |old(Contents())| && buffer[..pnext as int] == old(Contents())
      ensures Contents() == AfterFailedShift(old(Contents()), gptr)
    {
      var gnext := gptr as SizeT;
      pnext := pptr as SizeT;
      if gnext > 0 {
        pnext := pnext - gnext;
        MoveDown(gnext as int, pnext as int);
      }
    }

    /** The part of reserve that makes room for n characters behind pnext, or throws. */
    method EnsureLarge(n: SizeT, pnext: SizeT, pend: SizeT) returns (ok: bool, pend': SizeT)
      requires pnext <= pend <= maxSize && length as int == Max(pend as int, 1) <= buffer.Length
      requires address + buffer.Length <= SIZE_MAX
      modifies this`buffer, this`length, this`address, buffer
      ensures buffer == old(buffer) || fresh(buffer)
      ensures ok <==> pnext as int + n as int <= maxSize as int
      ensures !ok ==> unchanged(this) && buffer[..] == old(buffer[..])
      ensures ok ==>
                && pend' as int == Max(pend as int, pnext as int + n as int) <= maxSize as int
                && length as int == Max(pend' as int, 1) <= buffer.Length
                && address + buffer.Length <= SIZE_MAX
                && buffer[..pnext as int] == old(buffer[..pnext as int])
    {
      pend' := pend;
      if n > pend - pnext {
        if n <= maxSize && pnext <= maxSize - n {
          pend' := pnext + n;
          ResizeVector(Greater(pend', 1));
        } else {
          return false, pend;
        }
      }
      return true, pend';
    }

    /** The last part of reserve. */
    method UpdatePositions(pnext: SizeT, pend: SizeT)
      requires pnext <= pend <= maxSize && length as int == Max(pend as int, 1) <= buffer.Length
      requires address + buffer.Length <= SIZE_MAX
      modifies this`getArea, this`eback, this`gptr, this`egptr, this`putArea, this`pbase, this`pptr, this`epptr
      ensures Valid() && Contents() == buffer[..pnext as int] && |Spare()| == (pend - pnext) as int
      ensures gptr == 0
    {
      getArea, eback, gptr, egptr := buffer, 0, 0, pnext as int;
      putArea, pbase, pptr, epptr := buffer, pnext as int, pnext as int, pend as int;
    }

    /** The last two parts of reserve, after the shift. */
    method GrowOrThrow(n: SizeT, pnext: SizeT, ghost contents: seq<Byte>) returns (ok: bool)
      requires Valid() && pptr - gptr == pnext as int && buffer[..pnext as int] == contents
      modifies this, buffer
      ensures Valid() && (buffer == old(buffer) || fresh(buffer))
      ensures ok <==> pnext as int + n as int <= maxSize as int
      ensures ok ==> Contents() == contents && gptr == 0
      ensures ok ==> |Spare()| == Max(n as int, old(epptr) - pnext as int)
      ensures !ok ==> unchanged(this) && buffer[..] == old(buffer[..])
    {
      var pend := epptr as SizeT;
      ok, pend := EnsureLarge(n, pnext, pend);
      if ok {
        assert buffer[..pnext as int] == contents;
        UpdatePositions(pnext, pend);
      }
    }

    /** reserve(n). It throws exactly when the size and n together exceed the maximum. If there was not room
        enough, the put area then has n bytes, or more if the bytes in front of the queue that the shift
        wins back are more. All the arithmetic is in SizeT, so no subtraction wraps. */
    method Reserve(n: SizeT) returns (ok: bool)
      requires Valid()
      modifies this, buffer
      ensures Valid() && (buffer == old(buffer) || fresh(buffer))
      ensures ok <==> |old(Contents())| + n as int <= maxSize as int
      ensures ok ==> Contents() == old(Contents()) && |Spare()| >= n as int
      ensures n as int <= |old(Spare())| ==> unchanged(this) && Spare() == old(Spare())
      ensures ok && n as int > |old(Spare())| ==>
                gptr == 0 && |Spare()| == Max(n as int, old(epptr) - |old(Contents())|)
      ensures !ok ==> unchanged(this) && Contents() == AfterFailedShift(old(Contents()), old(gptr))
    {
      // Room for n characters means nothing to do.
      if n <= epptr as SizeT - pptr as SizeT {
        return true;
      }
      var pnext := ShiftToFront();
      ghost var shifted := buffer[..];
      assert Contents() == shifted[gptr..pptr];
      ok := GrowOrThrow(n, pnext, old(Contents()));
      if !ok {
        assert Contents() == buffer[..][gptr..pptr] == shifted[gptr..pptr];
      }
    }

    /** prepare(n). On success the returned region, the first n writable bytes, lies in the vector. */
    method Prepare(n: SizeT) returns (ok: bool, offset: nat)
      requires Valid()
      modifies this, buffer
      ensures Valid() && (buffer == old(buffer) || fresh(buffer))
      ensures ok <==> |old(Contents())| + n as int <= maxSize as int
      ensures ok ==> offset == pptr && offset + n as int <= epptr
      ensures ok ==> Contents() == old(Contents()) && |Spare()| >= n as int
      ensures n as int <= |old(Spare())| ==> unchanged(this) && Spare() == old(Spare())
      ensures ok && n as int > |old(Spare())| ==>
                gptr == 0 && |Spare()| == Max(n as int, old(epptr) - |old(Contents())|)
      ensures !ok ==> unchanged(this) && Contents() == AfterFailedShift(old(Contents()), old(gptr))
    {
      ok := Reserve(n);
      offset := if ok then pptr else 0;
    }

    /** The caller of prepare writes into the region that it was given. */
    method Fill(at: nat, bytes: seq<Byte>)
      requires Valid() && at + |bytes| <= |Spare()|
      modifies buffer
      ensures Valid()
      ensures Contents() == old(Contents())
      ensures Spare() == old(Spare())[..at] + bytes + old(Spare())[at + |bytes|..]
    {
      forall i | 0 <= i < |bytes| {
        buffer[pptr + at + i] := bytes[i];
      }
      Overwrite(old(buffer[..]), buffer[..], pptr, epptr, at, bytes);
      assert Spare() == buffer[..][pptr..epptr] && old(Spare()) == old(buffer[..])[pptr..epptr];
    }

    /** pbump(m) followed by setg(eback(), gptr(), pptr()). */
    method Pbump(m: int, ghost k: nat)
      requires Valid() && k <= |Spare()|
      modifies this`pptr, this`getArea, this`eback, this`gptr, this`egptr
      ensures pptr == old(pptr) + m && gptr == old(gptr) && egptr == pptr
      ensures (Valid() && Contents() == old(Contents()) + old(Spare())[..k] && Spare() == old(Spare())[k..])
              <==> m == k
    {
      PutBoundary(k);
      ghost var queue, spare := Contents() + Spare()[..k], Spare()[k..];
      pptr := pptr + m;
      getArea, eback, gptr, egptr := getArea, eback, gptr, pptr;
      if m == k {
        assert Valid() && Contents() == queue && Spare() == spare;
      } else if Valid() {
        assert |Spare()| != |spare|;
      }
    }

    /** The put pointer k characters further on. */
    lemma PutBoundary(k: nat)
      requires Valid() && k <= |Spare()|
      ensures buffer[gptr..pptr + k] == Contents() + Spare()[..k]
      ensures buffer[pptr + k..epptr] == Spare()[k..]
    {
    }

    /** commit(n). It does what it documents exactly when the number of characters to move fits an
        int. */
    method Commit(n: SizeT)
      requires Valid()
      modifies this`pptr, this`getArea, this`eback, this`gptr, this`egptr
      ensures pptr == old(pptr) + CommitAdvance(|old(Spare())|, n as int)
      ensures gptr == old(gptr) && egptr == pptr
      ensures var k := Min(n as int, |old(Spare())|);
              (Valid() && Contents() == old(Contents()) + old(Spare())[..k] && Spare() == old(Spare())[k..])
              <==> k <= INT_MAX
    {
      CommitExact(epptr - pptr, n as int);
      Pbump(CommitAdvance(epptr - pptr, n as int), Min(n as int, epptr - pptr));
    }

    /** std::streambuf::gbump moves the get pointer without looking where it goes. That removes the
        first k characters, and keeps the invariant, exactly if k is how far it moves. */
    method Gbump(m: int, ghost k: nat)
      requires Valid() && egptr == pptr && k <= |Contents()|
      modifies this`gptr
      ensures gptr == old(gptr) + m
      ensures (Valid() && Contents() == old(Contents())[k..] && Spare() == old(Spare())) <==> m == k
    {
      gptr := gptr + m;
      if m == k {
        assert Contents() == old(Contents())[k..];
      } else if Valid() {
        assert |Contents()| != |old(Contents())[k..]|;
      }
    }

    /** consume(n). It does what it documents exactly under ConsumeInRange. */
    method Consume(n: SizeT)
      requires Valid()
      modifies this`getArea, this`eback, this`gptr, this`egptr
      ensures gptr == old(gptr) + ConsumeAdvance(address, old(gptr), pptr, n as int)
      ensures getArea == buffer && eback == 0 && egptr == pptr
      ensures ConsumeInRange(address, old(gptr), pptr, n as int) ==> gptr == old(gptr) + Min(n as int, |old(Contents())|)
      ensures var k := Min(n as int, |old(Contents())|);
              (Valid() && Contents() == old(Contents())[k..] && Spare() == old(Spare()))
              <==> ConsumeInRange(address, old(gptr), pptr, n as int)
    {
      ghost var queue, spare := Contents(), Spare();
      if egptr < pptr {
        getArea, eback, gptr, egptr := buffer, 0, gptr, pptr;
      }
      assert Valid() && Contents() == queue && Spare() == spare;
      var advance := ConsumeAdvance(address, gptr, pptr, n as int);
      ghost var k := Min(n as int, |queue|);
      ConsumeExact(address, gptr, pptr, n as int);
      assert advance == k <==> ConsumeInRange(address, old(gptr), pptr, n as int);
      Gbump(advance, k);
    }

    method Underflow() returns (c: IntType)
      requires Valid()
      modifies this`getArea, this`eback, this`gptr, this`egptr
      ensures Valid() && gptr == old(gptr) && Abs() == old(Abs())
      ensures c == if Contents() == [] then Eof else Ch(Contents()[0])
      ensures c != Eof ==> gptr < egptr
    {
      if gptr < pptr {
        getArea, eback, gptr, egptr := buffer, 0, gptr, pptr;
        return Ch(getArea[gptr]);
      } else {
        return Eof;
      }
    }

    /** The statements *pptr() = b; pbump(1). */
    method Store(b: Byte)
      requires Valid() && pptr < epptr
      modifies this`pptr, buffer
      ensures Valid()
      ensures Contents() == old(Contents()) + [b] && Spare() == old(Spare())[1..]
    {
      putArea[pptr] := b;
      pptr := pptr + 1;
      assert Contents() == old(Contents()) + [b];
      assert Spare() == old(Spare())[1..];
    }

    /** The reserve of overflow, for an exhausted put area. When it throws, the get pointer is
        necessarily at the start, so nothing has been shifted. */
    method MakeRoom() returns (ok: bool)
      requires Valid() && pptr == epptr
      modifies this, buffer
      ensures Valid() && (buffer == old(buffer) || fresh(buffer))
      ensures ok <==> |old(Contents())| < maxSize as int
      ensures Contents() == old(Contents())
      ensures if ok then gptr == 0 && |Spare()| == Max(Min(128, maxSize as int - |old(Contents())|), old(gptr))
              else old(gptr) == 0 && unchanged(this)
    {
      var bufferSize := (pptr - gptr) as SizeT;
      var wanted := if bufferSize < maxSize && maxSize - bufferSize < BUFFER_DELTA
                    then maxSize - bufferSize else BUFFER_DELTA;
      assert |Spare()| == 0 < wanted as int && epptr - |Contents()| == gptr;
      ok := Reserve(wanted);
      if !ok {
        FailedShiftHarmless(old(Contents()), 0);
      }
    }

    /** overflow(c). For a character it throws exactly when the buffer is full to its maximum size, and
        then nothing has changed. */
    method Overflow(c: IntType) returns (r: PutResult)
      requires Valid()
      modifies this, buffer
      ensures Valid() && (buffer == old(buffer) || fresh(buffer))
      ensures c == Eof ==> r == Returned(NotEof(Eof)) && unchanged(this) && Contents() == old(Contents()) && Spare() == old(Spare())
      ensures c != Eof ==> (r == LengthError <==> |old(Contents())| == maxSize as int)
      ensures r == LengthError ==>
                old(gptr) == 0 && unchanged(this) && Contents() == old(Contents()) && Spare() == old(Spare())
      ensures c != Eof && r != LengthError ==>
                && r == Returned(c)
                && Contents() == old(Contents()) + [c.b]
                && (if |old(Spare())| > 0 then gptr == old(gptr) && Spare() == old(Spare())[1..]
                    else gptr == 0
                         && |Spare()| == Max(Min(128, maxSize as int - |old(Contents())|), old(gptr)) - 1)
    {
      if c == Eof {
        return Returned(NotEof(c));
      }
      if pptr == epptr {
        var ok := MakeRoom();
        if !ok {
          return LengthError;
        }
      }
      Store(c.b);
      return Returned(c);
    }

    /** std::streambuf::sputc. */
    method Sputc(b: Byte) returns (r: PutResult)
      requires Valid()
      modifies this, buffer
      ensures Valid() && (buffer == old(buffer) || fresh(buffer))
      ensures r == LengthError <==> |old(Contents())| == maxSize as int
      ensures r == LengthError ==> unchanged(this) && Contents() == old(Contents()) && Spare() == old(Spare())
      ensures r != LengthError ==>
                && r == Returned(Ch(b))
                && Contents() == old(Contents()) + [b]
                && (if |old(Spare())| > 0 then gptr == old(gptr) && Spare() == old(Spare())[1..]
                    else gptr == 0
                         && |Spare()| == Max(Min(128, maxSize as int - |old(Contents())|), old(gptr)) - 1)
    {
      if pptr < epptr {
        Store(b);
        return Returned(Ch(b));
      }
      r := Overflow(Ch(b));
    }

    /** std::streambuf::sbumpc, with the default uflow. */
    method Sbumpc() returns (c: IntType)
      requires Valid()
      modifies this`getArea, this`eback, this`gptr, this`egptr
      ensures Valid()
      ensures Spare() == old(Spare())
      ensures if old(Contents()) == [] then c == Eof && Contents() == [] && gptr == old(gptr)
              else c == Ch(old(Contents())[0]) && Contents() == old(Contents())[1..] && gptr == old(gptr) + 1
    {
      if gptr < egptr {
        c := Ch(getArea[gptr]);
        gptr := gptr + 1;
        return;
      }
      c := Underflow();
      if c != Eof {
        gptr := gptr + 1;
      }
    }

    /** std::streambuf::xsputn, as repeated sputc: everything is stored if it fits under the maximum
        size; otherwise the buffer is filled to exactly that size before the exception. */
    method Sputn(bytes: seq<Byte>) returns (ok: bool)
      requires Valid()
      modifies this, buffer
      ensures Valid() && (buffer == old(buffer) || fresh(buffer))
      ensures ok <==> |old(Contents())| + |bytes| <= maxSize as int
      ensures ok ==> Contents() == old(Contents()) + bytes
      ensures !ok ==> exists i :: 0 <= i < |bytes| && Contents() == old(Contents()) + bytes[..i] && |Contents()| == maxSize as int
    {
      ok := true;
      for i := 0 to |bytes|
        invariant Valid() && (buffer == old(buffer) || fresh(buffer))
        invariant Contents() == old(Contents()) + bytes[..i]
      {
        var r := Sputc(bytes[i]);
        if r == LengthError {
          return false;
        }
        assert bytes[..i + 1] == bytes[..i] + [bytes[i]];
      }
    }

    /** read_size_helper(sb, limit): the unused capacity, or 512 if that is more, unless the limit or the
        maximum size allows less. So a prepare of its result never throws, and it is positive whenever that
        is possible at all. */
    method ReadSizeHelper(limit: SizeT) returns (n: SizeT)
      requires Valid()
      ensures |Contents()| + n as int <= maxSize as int && n <= limit
      ensures n > 0 <==> limit > 0 && |Contents()| < maxSize as int
      ensures n as int <= Max(512, buffer.Length - |Contents()|)
      ensures n as int < Max(512, buffer.Length - |Contents()|) ==> n == limit || |Contents()| + n as int == maxSize as int
    {
      n := ReadSize(buffer.Length as SizeT, (pptr - gptr) as SizeT, maxSize, limit);
    }

    /** Whether the arguments of a call are within what the prepared region, the narrowing to int and
        the pointer sum can represent. */
    predicate InRange(op: Op)
      requires Valid()
      reads this
    {
      match op
      case Fill(at, bytes) => at + |bytes| <= epptr - pptr
      case Commit(n) => Min(n as int, epptr - pptr) <= INT_MAX
      case Consume(n) => ConsumeInRange(address, gptr, pptr, n as int)
      case _ => true
    }

    /** With a maximum size that an int can hold, every commit is in range, and so is every consume of no
        more than the size, or of more as long as the pointer sum stays in the address space. */
    lemma SmallBuffersAreInRange(n: SizeT)
      requires Valid() && maxSize as int <= INT_MAX
      ensures InRange(Op.Commit(n))
      ensures n as int <= |Contents()| || address + gptr + n as int < ADDRESS_SPACE ==> InRange(Op.Consume(n))
    {
    }

    /** The calls that may throw. */
    method PerformGrowing(op: Op) returns (r: StepEnd)
      requires Valid() && (op.Prepare? || op.PutChar?)
      modifies this, buffer
      ensures Valid() && (buffer == old(buffer) || fresh(buffer)) && !r.OutOfRange?
      ensures r.Stepped? ==> FifoStep(maxSize as int, old(Abs()), op, r.obs, Abs())
      ensures r.Threw? <==> Exceeds(maxSize as int, old(Abs()), op)
    {
      if op.Prepare? {
        var ok, _ := Prepare(op.n);
        r := if ok then Stepped(Done) else Threw;
      } else {
        var put := Sputc(op.b);
        r := if put == LengthError then Threw else Stepped(Got(put.c));
      }
    }

    /** The calls that work on the put area in place. */
    method PerformFilling(op: Op) returns (obs: Obs)
      requires Valid() && InRange(op) && (op.Fill? || op.Commit?)
      modifies this`getArea, this`eback, this`gptr, this`egptr, this`pptr, buffer
      ensures Valid()
      ensures FifoStep(maxSize as int, old(Abs()), op, obs, Abs())
    {
      obs := Done;
      if op.Fill? {
        Fill(op.at, op.bytes);
      } else {
        Commit(op.n);
      }
    }

    method PerformConsume(n: SizeT)
      requires Valid() && ConsumeInRange(address, gptr, pptr, n as int)
      modifies this`getArea, this`eback, this`gptr, this`egptr
      ensures Valid()
      ensures FifoStep(maxSize as int, old(Abs()), Op.Consume(n), Done, Abs())
    {
      ghost var f := Abs();
      Consume(n);
      ghost var f' := Abs();
      assert f'.queue == f.queue[Min(n as int, |f.queue|)..] && f'.spare == f.spare;
      ConsumeIsStep(maxSize as int, f, n, f');
    }

    method PerformGetChar() returns (obs: Obs)
      requires Valid()
      modifies this`getArea, this`eback, this`gptr, this`egptr
      ensures Valid()
      ensures FifoStep(maxSize as int, old(Abs()), GetChar, obs, Abs())
    {
      ghost var f := Abs();
      var c := Sbumpc();
      obs := Got(c);
      GetCharIsStep(maxSize as int, f, c, Abs());
    }

    /** The calls that take characters out. */
    method PerformTaking(op: Op) returns (obs: Obs)
      requires Valid() && InRange(op) && (op.Consume? || op.GetChar?)
      modifies this`getArea, this`eback, this`gptr, this`egptr
      ensures Valid()
      ensures FifoStep(maxSize as int, old(Abs()), op, obs, Abs())
    {
      if op.Consume? {
        PerformConsume(op.n);
        obs := Done;
      } else {
        obs := PerformGetChar();
      }
    }

    /** One call of a client, on its way into the abstract queue. */
    method Perform(op: Op) returns (r: StepEnd)
      requires Valid() && InRange(op)
      modifies this, buffer
      ensures Valid() && (buffer == old(buffer) || fresh(buffer)) && !r.OutOfRange?
      ensures r.Stepped? ==> FifoStep(maxSize as int, old(Abs()), op, r.obs, Abs())
      ensures r.Threw? <==> Exceeds(maxSize as int, old(Abs()), op)
    {
      if op.Prepare? || op.PutChar? {
        r := PerformGrowing(op);
      } else if op.Fill? || op.Commit? {
        var obs := PerformFilling(op);
        r := Stepped(obs);
      } else {
        var obs := PerformTaking(op);
        r := Stepped(obs);
      }
    }
  }

  /** Every run refines the bounded FIFO queue: until a call throws (or is out of range), the
      observations and the contents are those of a run of the abstract queue. */
  method Run(sb: StreamBuf, ops: seq<Op>) returns (obs: seq<Obs>, end: StepEnd, ghost states: seq<Fifo>)
    requires sb.Valid()
    modifies sb, sb.buffer
    ensures sb.Valid()
    ensures |obs| <= |ops| && FifoRun(sb.maxSize as int, states, ops[..|obs|], obs)
    ensures states[0] == old(sb.Abs())
    ensures !end.Threw? ==> states[|obs|] == sb.Abs()
    ensures end.Stepped? <==> |obs| == |ops|
    ensures end.OutOfRange? ==> !sb.InRange(ops[|obs|])
    ensures end.Threw? ==> Exceeds(sb.maxSize as int, states[|obs|], ops[|obs|])
  {
    obs, states := [], [sb.Abs()];
    end := Stepped(Done);
    for i := 0 to |ops|
      invariant sb.Valid() && (sb.buffer == old(sb.buffer) || fresh(sb.buffer))
      invariant |obs| == i && end.Stepped?
      invariant FifoRun(sb.maxSize as int, states, ops[..i], obs)
      invariant states[0] == old(sb.Abs()) && states[i] == sb.Abs()
    {
      if !sb.InRange(ops[i]) {
        end := OutOfRange;
        return;
      }
      end := sb.Perform(ops[i]);
      if end.Threw? {
        return;
      }
      ExtendRun(sb.maxSize as int, states, ops[..i], obs, ops[i], end.obs, sb.Abs());
      assert ops[..i + 1] == ops[..i] + [ops[i]];
      obs, states := obs + [end.obs], states + [sb.Abs()];
    }
    assert ops[..|ops|] == ops;
  }

  /** In every run of a new buffer, what its users have taken out is at every moment a prefix of what they
      have put in, and the rest is queued; and if they take it out character by character, what the calls
      returned to them is that prefix. */
  method RunNew(maximumSize: SizeT, ops: seq<Op>) returns (obs: seq<Obs>, end: StepEnd, ghost states: seq<Fifo>)
    ensures |obs| <= |ops| && FifoRun(maximumSize as int, states, ops[..|obs|], obs)
    ensures forall n: nat :: n <= |obs| ==>
              var taken, put := AllOut(states, ops[..|obs|], n), AllIn(states, ops[..|obs|], n);
              taken <= put && put == taken + states[n].queue && |states[n].queue| <= maximumSize as int
    ensures (forall i :: 0 <= i < |obs| ==> !ops[i].Consume?) ==>
              forall n: nat :: n <= |obs| ==> CharsRead(ops[..|obs|], obs, n) <= AllIn(states, ops[..|obs|], n)
  {
    var sb := new StreamBuf(maximumSize);
    obs, end, states := Run(sb, ops);
    ghost var made := ops[..|obs|];
    forall n: nat | n <= |obs|
      ensures AllOut(states, made, n) <= AllIn(states, made, n)
      ensures AllIn(states, made, n) == AllOut(states, made, n) + states[n].queue
      ensures |states[n].queue| <= maximumSize as int
      ensures (forall i :: 0 <= i < |obs| ==> !ops[i].Consume?) ==> CharsRead(made, obs, n) == AllOut(states, made, n)
    {
      Conservation(maximumSize as int, states, made, obs, n);
      ReadIsPrefixOfWritten(maximumSize as int, states, made, obs, n);
      if forall i :: 0 <= i < |obs| ==> !ops[i].Consume? {
        CharsReadAreBytesOut(maximumSize as int, states, made, obs, n);
      }
    }
  }

  // --- Calls that do not do what is documented ---

  /** A new buffer that holds some characters, the first of which has been consumed. */
  method NewAfterConsume(maximumSize: SizeT, bytes: seq<Byte>) returns (sb: StreamBuf)
    requires 0 < |bytes| <= maximumSize as int && |bytes| <= INT_MAX
    ensures fresh(sb) && fresh(sb.buffer) && sb.Valid() && sb.maxSize == maximumSize
    ensures sb.Contents() == bytes[1..] && 0 < sb.gptr && sb.buffer[sb.gptr - 1] == bytes[0]
  {
    sb := new StreamBuf(maximumSize);
    var _ := sb.Sputn(bytes);
    assert sb.Contents() == bytes;
    assert sb.buffer[sb.gptr] == bytes[0];
    sb.Consume(1);
  }

  /** Four characters fill a buffer of maximum size 4, and one is consumed: a prepare of two more then
      throws, as it should, but the three that were queued have been damaged. */
  method PrepareDamages(a: Byte, b: Byte, c: Byte, d: Byte) returns (sb: StreamBuf, ok: bool)
    ensures sb.Valid() && !ok && sb.Contents() == [c, d, d]
  {
    sb := NewAfterConsume(4, [a, b, c, d]);
    assert sb.Contents() == [b, c, d];
    var offset;
    ok, offset := sb.Prepare(2);
  }

  /** Without a maximum size, 2^31 characters can be prepared; committing them moves the put pointer back
      by as many, behind the get pointer. */
  method CommitMovesBack() returns (sb: StreamBuf, ok: bool)
    ensures ok && !sb.Valid() && sb.pptr == sb.gptr - 0x8000_0000
  {
    sb := new StreamBuf(SIZE_MAX as SizeT);
    var offset;
    ok, offset := sb.Prepare(0x8000_0000);
    CommitWraps(|sb.Spare()|, 0x8000_0000);
    sb.Commit(0x8000_0000);
  }

  /** Consuming the maximum of size_t, where the documentation promises an empty queue, puts the character
      that was consumed before back into the queue. */
  method ConsumePutsBack(a: Byte, b: Byte) returns (sb: StreamBuf)
    ensures sb.Valid() && sb.Contents() == [a, b]
  {
    sb := NewAfterConsume(SIZE_MAX as SizeT, [a, b]);
    assert sb.Contents() == [b];
    ConsumeWraps(sb.address, sb.gptr, sb.pptr);
    sb.Consume(SIZE_MAX as SizeT);
    assert sb.Contents() == [sb.buffer[sb.gptr]] + sb.Contents()[1..];
  }

  lemma ExtendRun(bound: int, states: seq<Fifo>, ops: seq<Op>, obs: seq<Obs>, op: Op, ob: Obs, f': Fifo)
    requires FifoRun(bound, states, ops, obs) && FifoStep(bound, states[|ops|], op, ob, f')
    ensures FifoRun(bound, states + [f'], ops + [op], obs + [ob])
  {
  }
}
