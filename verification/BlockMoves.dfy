/** The block copies of the kernel library, on a stretch of physical memory. */
module BlockMoves {
  import opened Bytes

  /** Memory after the `n` bytes at `src` were put at `dest`. */
  function Moved(mem: seq<byte>, dest: nat, src: nat, n: nat): seq<byte>
    requires dest + n <= |mem| && src + n <= |mem|
  {
    mem[..dest] + mem[src..src + n] + mem[dest + n..]
  }

  /** Byte by byte: the block is where it was sent, and all else where it was. */
  lemma MovedBytes(mem: seq<byte>, dest: nat, src: nat, n: nat, k: nat)
    requires dest + n <= |mem| && src + n <= |mem| && k < |mem|
    ensures |Moved(mem, dest, src, n)| == |mem|
    ensures Moved(mem, dest, src, n)[k] == if dest <= k < dest + n then mem[src + (k - dest)] else mem[k]
  {
  }

  /** The first `i` bytes have arrived, and nothing else has changed. */
  ghost predicate Arrived(was: seq<byte>, now: seq<byte>, dest: nat, src: nat, i: nat)
    requires dest + i <= |was| && src + i <= |was| && |now| == |was|
  {
    && (forall k :: dest <= k < dest + i ==> now[k] == was[src + (k - dest)])
    && (forall k :: 0 <= k < |was| && !(dest <= k < dest + i) ==> now[k] == was[k])
  }

  lemma AllArrived(was: seq<byte>, now: seq<byte>, dest: nat, src: nat, n: nat)
    requires dest + n <= |was| && src + n <= |was| && |now| == |was|
    requires Arrived(was, now, dest, src, n)
    ensures now == Moved(was, dest, src, n)
  {
  }

  /** The bytes still to come are where they were. */
  ghost predicate Underway(was: seq<byte>, now: seq<byte>, dest: nat, src: nat, n: nat, edi: nat, esi: nat) {
    && |now| == |was| && dest + n <= |was| && src + n <= |was| && !(src < dest < src + n)
    && dest <= edi <= dest + n && esi == src + (edi - dest)
    && Arrived(was, now, dest, src, edi - dest)
  }

  lemma NothingMoved(was: seq<byte>, dest: nat, src: nat, n: nat)
    requires dest + n <= |was| && src + n <= |was| && !(src < dest < src + n)
    ensures Underway(was, was, dest, src, n, dest, src)
  {
  }

  method MoveByte(mem: array<byte>, edi: nat, esi: nat, ghost was: seq<byte>, ghost dest: nat, ghost src: nat, ghost n: nat)
    requires Underway(was, mem[..], dest, src, n, edi, esi) && edi < dest + n
    modifies mem
    ensures Underway(was, mem[..], dest, src, n, edi + 1, esi + 1)
  {
    mem[edi] := mem[esi];
  }

  /** One 4-byte move: all four bytes are read before any is written. */
  method MoveDword(mem: array<byte>, edi: nat, esi: nat, ghost was: seq<byte>, ghost dest: nat, ghost src: nat, ghost n: nat)
    requires Underway(was, mem[..], dest, src, n, edi, esi) && edi + 4 <= dest + n
    modifies mem
    ensures Underway(was, mem[..], dest, src, n, edi + 4, esi + 4)
  {
    var b0, b1, b2, b3 := mem[esi], mem[esi + 1], mem[esi + 2], mem[esi + 3];
    mem[edi], mem[edi + 1], mem[edi + 2], mem[edi + 3] := b0, b1, b2, b3;
  }

  /** Copies byte by byte up to a 4-byte boundary of the destination, then
      four bytes at a time, then the last bytes singly. It moves the block
      exactly, for every length and alignment, unless the destination starts
      inside the source. */
  method Memcpy(mem: array<byte>, dest: nat, src: nat, n: nat)
    requires dest + n <= mem.Length && src + n <= mem.Length
    requires !(src < dest < src + n)
    modifies mem
    ensures mem[..] == Moved(old(mem[..]), dest, src, n)
  {
    hide Arrived;
    ghost var was := mem[..];
    NothingMoved(was, dest, src, n);
    var edi, esi, ecx := dest, src, n;
    while ecx != 0 && edi % 4 != 0
      invariant edi + ecx == dest + n && Underway(was, mem[..], dest, src, n, edi, esi)
      decreases ecx
    {
      MoveByte(mem, edi, esi, was, dest, src, n);
      edi, esi, ecx := edi + 1, esi + 1, ecx - 1;
    }
    var edx := ecx % 4;
    ecx := ecx / 4;
    while ecx != 0
      invariant 0 <= edx && 0 <= ecx
      invariant edi + 4 * ecx + edx == dest + n && Underway(was, mem[..], dest, src, n, edi, esi)
      decreases ecx
    {
      MoveDword(mem, edi, esi, was, dest, src, n);
      edi, esi, ecx := edi + 4, esi + 4, ecx - 1;
    }
    while edx != 0
      invariant edi + edx == dest + n && Underway(was, mem[..], dest, src, n, edi, esi)
      decreases edx
    {
      MoveByte(mem, edi, esi, was, dest, src, n);
      edi, esi, edx := edi + 1, esi + 1, edx - 1;
    }
    AllArrived(was, mem[..], dest, src, n);
  }

  /** Copies upwards when the source is not below the destination, downwards
      otherwise: the block arrives intact for every overlap. */
  method Memmove(mem: array<byte>, dest: nat, src: nat, n: nat)
    requires dest + n <= mem.Length && src + n <= mem.Length
    modifies mem
    ensures mem[..] == Moved(old(mem[..]), dest, src, n)
  {
    ghost var was := mem[..];
    var ecx := n;
    if src >= dest {
      var edi, esi := dest, src;
      while ecx != 0
        invariant 0 <= ecx <= n && edi == dest + (n - ecx) && esi == src + (n - ecx)
        invariant Arrived(was, mem[..], dest, src, n - ecx)
        decreases ecx
      {
        mem[edi] := mem[esi];
        edi, esi, ecx := edi + 1, esi + 1, ecx - 1;
      }
    } else {
      var esi: int, edi: int := src + n - 1, dest + n - 1;
      while ecx != 0
        invariant 0 <= ecx <= n && edi == dest + ecx - 1 && esi == src + ecx - 1
        invariant Arrived(was, mem[..], dest + ecx, src + ecx, n - ecx)
        decreases ecx
      {
        mem[edi] := mem[esi];
        edi, esi, ecx := edi - 1, esi - 1, ecx - 1;
      }
    }
    AllArrived(was, mem[..], dest, src, n);
  }
}
