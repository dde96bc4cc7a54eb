/**
 A byte vector with three representations: up to 23 bytes inside the object, a reference to memory that
 somebody else keeps, and a block of its own. InLen_ tells the first from the others, MemSize_ those two.

 The union of inner buffer and block is two fields here, and allocation succeeds.
*/
module ByteVector {
  import opened Wrappers
  import opened Bytes
  import opened Memory

  const MAX_INTERNAL := 23
  const U32 := 0x1_0000_0000

  // ---- fon9_Blob ----

  /** The block's size does not count the byte for the end of string that is allocated with it. */
  class Blob {
    var mem: array<Byte>
    var size: nat
    var used: nat

    ghost predicate Valid()
      reads this
    {
      used <= size < U32 && mem.Length == if size == 0 then 0 else size + 1
    }

    ghost function Contents(): Bytes
      requires Valid()
      reads this, mem
    {
      mem[..used]
    }

    constructor ()
      ensures Valid() && size == 0 && fresh(mem) && Contents() == []
    {
      mem := new Byte[0];
      size, used := 0, 0;
    }

    /** fon9_Blob_Set with memory to copy. */
    method Set(src: Bytes)
      requires Valid() && 0 < |src| < U32
      modifies this, mem
      ensures Valid() && Contents() == src && (mem == old(mem) || fresh(mem))
      ensures size == if old(size) < |src| then |src| else old(size)
    {
      if size < |src| {
        mem := new Byte[|src| + 1];
        size := |src|;
      }
      used := |src|;
      Memcpy(mem, 0, src);
      mem[used] := 0;
      assert mem[..used] == src;
    }

    /** fon9_Blob_Set without: `n` bytes of any contents. */
    method SetSize(n: nat)
      requires Valid() && 0 < n < U32
      modifies this, mem
      ensures Valid() && used == n && (mem == old(mem) || fresh(mem))
      ensures size == if old(size) < n then n else old(size)
    {
      if size < n {
        mem := new Byte[n + 1];
        size := n;
      }
      used := n;
      mem[used] := 0;
    }

    /** The growing part of fon9_Blob_Append: what is in use stays. The sum of the sizes has 32 bits. */
    method Grow(n: nat) returns (ok: bool)
      requires Valid() && used + n < U32
      modifies this, mem
      ensures Valid() && used == old(used) && Contents() == old(Contents()) && (mem == old(mem) || fresh(mem))
      ensures ok <==> old(used) + n <= old(size) || old(used) + n + 128 < U32
      ensures size == if ok && old(used) + n > old(size) then old(used) + n + 128 else old(size)
    {
      var newUsed := used + n;
      if newUsed > size {
        var newSize := newUsed + 128;
        if newSize >= U32 { return false; }
        var bigger := new Byte[newSize + 1];
        Memcpy(bigger, 0, mem[..used]);
        mem, size := bigger, newSize;
      }
      return true;
    }

    method Append(src: Bytes) returns (ok: bool)
      requires Valid() && used + |src| < U32
      modifies this, mem
      ensures Valid() && (mem == old(mem) || fresh(mem))
      ensures ok <==> old(used) + |src| <= old(size) || old(used) + |src| + 128 < U32
      ensures Contents() == if ok then old(Contents()) + src else old(Contents())
      ensures old(size) <= size
    {
      ok := Grow(|src|);
      if ok && mem.Length > 0 {
        Memcpy(mem, used, src);
        used := used + |src|;
        mem[used] := 0;
      }
    }
  }

  // ---- The vector ----

  /** What erasing leaves of a sequence. */
  function Erased(s: Bytes, offset: nat, count: nat): Bytes {
    if offset >= |s| then s else if offset + count >= |s| then s[..offset] else s[..offset] + s[offset + count..]
  }

  /** Every byte in front of the place stays where it was, those behind the part erased move up by as many as
      are erased, and nothing else is left. */
  lemma ErasedKeeps(s: Bytes, offset: nat, count: nat, i: nat)
    ensures var gone := if offset >= |s| then 0 else if count < |s| - offset then count else |s| - offset;
            && |Erased(s, offset, count)| == |s| - gone
            && (i < |s| - gone ==> Erased(s, offset, count)[i] == s[if i < offset then i else i + gone])
  {
  }

  function Filled(n: nat, b: Byte): (s: Bytes)
    ensures |s| == n && forall i | 0 <= i < n :: s[i] == b
  {
    if n == 0 then [] else Filled(n - 1, b) + [b]
  }

  class ByteVector {
    /** At most 0: the bytes are inside, 23 + inLen of them. Else the block's, or `lent` if it has no size. */
    var inLen: int
    const inBuf: array<Byte>
    const blob: Blob
    var lent: Bytes

    ghost predicate Valid()
      reads this, blob
    {
      && inBuf.Length == MAX_INTERNAL + 1 && blob.Valid() && blob.mem != inBuf
      && (-MAX_INTERNAL <= inLen <= 0 || inLen == 1)
      && (inLen <= 0 ==> blob.size == 0) && (blob.size == 0 || blob.size > MAX_INTERNAL) && |lent| < U32
    }

    predicate UsesInternal() reads this { inLen <= 0 }
    predicate UsesRef() reads this, blob { inLen > 0 && blob.size == 0 }
    predicate UsesBlob() reads this, blob { inLen > 0 && blob.size > 0 }

    ghost function Contents(): Bytes
      requires Valid()
      reads this, inBuf, blob, blob.mem
    {
      if inLen <= 0 then inBuf[..MAX_INTERNAL + inLen] else if blob.size > 0 then blob.Contents() else lent
    }

    /** The three ways to construct: empty, a copy of bytes, a reference to memory. */
    constructor ()
      ensures Valid() && fresh(inBuf) && fresh(blob) && fresh(blob.mem) && UsesInternal() && Contents() == []
    {
      inBuf := new Byte[MAX_INTERNAL + 1];
      blob := new Blob();
      inLen, lent := -MAX_INTERNAL, [];
    }

    constructor Copying(src: Bytes)
      requires |src| < U32
      ensures Valid() && fresh(inBuf) && fresh(blob) && fresh(blob.mem) && Contents() == src
    {
      inBuf := new Byte[MAX_INTERNAL + 1];
      blob := new Blob();
      inLen, lent := -MAX_INTERNAL, [];
      new;
      CopyBytes(src);
    }

    constructor MakeRef(mem: Bytes)
      requires |mem| < U32
      ensures Valid() && fresh(inBuf) && fresh(blob) && fresh(blob.mem) && UsesRef() && Contents() == mem
    {
      inBuf := new Byte[MAX_INTERNAL + 1];
      blob := new Blob();
      inLen, lent := 1, mem;
    }

    method Size() returns (n: nat)
      requires Valid()
      ensures n == |Contents()|
    {
      if inLen <= 0 { return MAX_INTERNAL + inLen; }
      return if blob.size > 0 then blob.used else |lent|;
    }

    method SetInLen(n: nat)
      requires inBuf.Length == MAX_INTERNAL + 1 && n <= MAX_INTERNAL
      modifies `inLen, inBuf
      ensures inLen == n - MAX_INTERNAL && inBuf[..n] == old(inBuf[..n])
    {
      inLen := n - MAX_INTERNAL;
      inBuf[n] := 0;
    }

    /** Leaves the key empty of a block; what was in it is gone. */
    method FreeBlob()
      requires Valid()
      modifies `inLen, blob
      ensures Valid() && blob.size == 0 && (blob.mem == old(blob.mem) || fresh(blob.mem))
      ensures inLen == old(inLen)
    {
      if UsesBlob() {
        blob.mem := new Byte[0];
        blob.size, blob.used := 0, 0;
      }
    }

    method CopyBytes(src: Bytes)
      requires Valid() && |src| < U32
      modifies this, inBuf, blob, blob.mem
      ensures Valid() && Contents() == src && !UsesRef() && (blob.mem == old(blob.mem) || fresh(blob.mem))
      ensures UsesInternal() <==> |src| <= MAX_INTERNAL
    {
      if |src| <= MAX_INTERNAL {
        FreeBlob();
        Memcpy(inBuf, 0, src);
        assert inBuf[..|src|] == src;
        SetInLen(|src|);
      } else {
        if !UsesBlob() { inLen := 1; }
        blob.Set(src);
      }
    }

    method Assign(rhs: ByteVector)
      requires Valid() && rhs.Valid()
      requires rhs != this ==> rhs.inBuf != inBuf && rhs.blob != blob && rhs.blob.mem != blob.mem
      requires rhs != this ==> rhs.blob.mem != inBuf && rhs.inBuf != blob.mem
      modifies this, inBuf, blob, blob.mem
      ensures Valid() && rhs.Valid() && Contents() == old(rhs.Contents()) == rhs.Contents()
      ensures blob.mem == old(blob.mem) || fresh(blob.mem)
    {
      if this == rhs { return; }
      if rhs.UsesInternal() {
        FreeBlob();
        Memcpy(inBuf, 0, rhs.inBuf[..]);
        assert inBuf[..] == rhs.inBuf[..];
        inLen := rhs.inLen;
        assert inBuf[..MAX_INTERNAL + inLen] == inBuf[..][..MAX_INTERNAL + inLen];
        assert rhs.inBuf[..MAX_INTERNAL + inLen] == rhs.inBuf[..][..MAX_INTERNAL + inLen];
      } else {
        CopyBytes(if rhs.blob.size > 0 then rhs.blob.mem[..rhs.blob.used] else rhs.lent);
      }
    }

    /** The vector takes over what the other has, a block without copying it, and leaves that one empty. */
    method AssignMove(rhs: ByteVector)
      requires Valid() && rhs.Valid()
      requires rhs != this ==> rhs.inBuf != inBuf && rhs.blob != blob && rhs.blob.mem != blob.mem
      requires rhs != this ==> rhs.blob.mem != inBuf && rhs.inBuf != blob.mem
      modifies this, inBuf, blob, blob.mem, rhs, rhs.inBuf, rhs.blob
      ensures Valid() && Contents() == old(rhs.Contents())
      ensures rhs != this ==> rhs.Valid() && rhs.Contents() == [] && rhs.blob.mem != blob.mem
      ensures blob.mem in {old(blob.mem), old(rhs.blob.mem)} || fresh(blob.mem)
      ensures rhs != this ==> rhs.blob.mem == old(rhs.blob.mem) || fresh(rhs.blob.mem)
    {
      if this == rhs { return; }
      if rhs.UsesRef() {
        CopyBytes(rhs.lent);
      } else if rhs.UsesInternal() {
        FreeBlob();
        Memcpy(inBuf, 0, rhs.inBuf[..]);
        inLen := rhs.inLen;
        assert inBuf[..MAX_INTERNAL + inLen] == inBuf[..][..MAX_INTERNAL + inLen];
        assert rhs.inBuf[..MAX_INTERNAL + inLen] == rhs.inBuf[..][..MAX_INTERNAL + inLen];
      } else {
        inLen := 1;
        blob.mem, blob.size, blob.used := rhs.blob.mem, rhs.blob.size, rhs.blob.used;
        rhs.blob.mem := new Byte[0];
        rhs.blob.size, rhs.blob.used := 0, 0;
      }
      rhs.SetInLen(0);
    }

    /** MoveToBlob: what there is moves into a block with room for `n` bytes at least. */
    method MoveToBlob(n: nat)
      requires Valid() && !UsesBlob() && MAX_INTERNAL < n < U32
      modifies this, blob, blob.mem
      ensures Valid() && UsesBlob() && Contents() == old(Contents()) && (blob.mem == old(blob.mem) || fresh(blob.mem))
      ensures blob.size == if n < old(|Contents()|) then old(|Contents()|) else n
    {
      var was := if inLen <= 0 then inBuf[..MAX_INTERNAL + inLen] else lent;
      inLen := 1;
      blob.SetSize(if n < |was| then |was| else n);
      Memcpy(blob.mem, 0, was);
      blob.used := |was|;
      assert blob.mem[..blob.used] == was;
    }

    method Clear()
      requires Valid()
      modifies this, inBuf, blob
      ensures Valid() && Contents() == [] && blob.mem == old(blob.mem)
    {
      if UsesBlob() { blob.used := 0; } else { SetInLen(0); }
    }

    /** The bytes of `data` up to `size`, without `count` of them. */
    method CutOut(data: array<Byte>, size: nat, offset: nat, count: nat) returns (n: nat)
      requires offset < size <= data.Length
      modifies data
      ensures n <= size && data[..n] == Erased(old(data[..size]), offset, count)
    {
      assert data[..size][..offset] == data[..offset];
      if offset + count >= size { return offset; }
      ghost var was := data[..size];
      Memcpy(data, offset, data[offset + count..size]);
      n := size - count;
      assert data[..n] == was[..offset] + was[offset + count..];
    }

    method Erase(offset: nat, count: nat)
      requires Valid()
      modifies this, inBuf, blob, blob.mem
      ensures Valid() && (blob.mem == old(blob.mem) || fresh(blob.mem))
      ensures Contents() == Erased(old(Contents()), offset, count)
    {
      if UsesRef() { CopyBytes(lent); }
      EraseOwned(offset, count);
    }

    method EraseOwned(offset: nat, count: nat)
      requires Valid() && !UsesRef()
      modifies this, inBuf, blob, blob.mem
      ensures Valid() && blob.mem == old(blob.mem) && blob.size == old(blob.size) && (inLen > 0 <==> old(inLen) > 0)
      ensures Contents() == Erased(old(Contents()), offset, count)
    {
      var size := Size();
      if offset >= size { return; }
      if UsesBlob() {
        var n := CutOut(blob.mem, size, offset, count);
        blob.used := n;
      } else {
        var n := CutOut(inBuf, size, offset, count);
        SetInLen(n);
      }
    }

    /** A vector of n bytes whose contents are not set; with n beyond 32 bits it fails and stays as it is. */
    method Alloc(n: nat) returns (ok: bool)
      requires Valid()
      modifies this, inBuf, blob, blob.mem
      ensures Valid() && (blob.mem == old(blob.mem) || fresh(blob.mem)) && (ok <==> n < U32)
      ensures ok ==> |Contents()| == n && !UsesRef() && (UsesInternal() <==> n <= MAX_INTERNAL)
      ensures !ok ==> Contents() == old(Contents())
    {
      if n <= MAX_INTERNAL {
        FreeBlob();
        SetInLen(n);
        return true;
      }
      if UsesBlob() && blob.size >= n {
        blob.used := n;
        return true;
      }
      if n >= U32 { return false; }
      inLen := 1;
      blob.SetSize(n);
      return true;
    }

    /** It throws when there is no memory for that many bytes. */
    method AssignBytes(src: Bytes) returns (ok: bool)
      requires Valid()
      modifies this, inBuf, blob, blob.mem
      ensures Valid() && (blob.mem == old(blob.mem) || fresh(blob.mem)) && (ok <==> |src| < U32)
      ensures Contents() == (if ok then src else old(Contents())) && (ok ==> !UsesRef())
    {
      ok := Alloc(|src|);
      if !ok { return; }
      if UsesBlob() {
        Memcpy(blob.mem, 0, src);
        assert blob.mem[..blob.used] == src;
      } else {
        Memcpy(inBuf, 0, src);
        assert inBuf[..MAX_INTERNAL + inLen] == src;
      }
    }

    method Resize(n: nat) returns (ok: bool)
      requires Valid() && n < U32
      modifies this, inBuf, blob, blob.mem
      ensures Valid() && (blob.mem == old(blob.mem) || fresh(blob.mem))
      ensures ok ==> Contents() == if n <= old(|Contents()|) then old(Contents())[..n]
                                   else old(Contents()) + Filled(n - old(|Contents()|), 0)
      ensures !ok ==> Contents() == old(Contents()) && n + 128 >= U32
    {
      var size := Size();
      ok := true;
      if size < n {
        ok := AppendBytes(Filled(n - size, 0));
      } else if size > n {
        if UsesBlob() { blob.used := n; } else if inLen > 0 { lent := lent[..n]; } else { SetInLen(n); }
      }
    }

    function Capacity(): nat
      reads this, blob
    {
      if UsesBlob() then blob.size else MAX_INTERNAL
    }

    /** The contents stay. The capacity asked for is there afterwards, except when the block grows by less
        than it has unused, because the bytes asked for are counted from what is in use. */
    method Reserve(n: nat)
      requires Valid()
      modifies this, blob, blob.mem
      ensures Valid() && Contents() == old(Contents()) && (blob.mem == old(blob.mem) || fresh(blob.mem))
      ensures n < U32 - 128 ==>
                (Capacity() >= n <==>
                 old(!UsesBlob()) || n <= old(blob.size) || (n > 2 * old(blob.size) - old(blob.used)
                                                             && old(blob.used) + 128 >= old(blob.size)))
    {
      if n <= MAX_INTERNAL || n >= U32 { return; }
      if !UsesBlob() {
        MoveToBlob(n);
      } else if n > blob.size {
        var _ := blob.Grow(n - blob.size);
      }
    }

    /** Both forms of append, which differ in where the bytes come from: what is inside or lent stays inside while it fits. */
    method AppendBytes(src: Bytes) returns (ok: bool)
      requires Valid() && |Contents()| + |src| < U32
      modifies this, inBuf, blob, blob.mem
      ensures Valid() && (blob.mem == old(blob.mem) || fresh(blob.mem))
      ensures Contents() == if ok then old(Contents()) + src else old(Contents())
      ensures old(|Contents()|) + |src| + 128 < U32 ==> ok
    {
      ghost var was := Contents();
      if !UsesBlob() {
        var oldSize := Size();
        var newSize := oldSize + |src|;
        if newSize <= MAX_INTERNAL {
          if newSize > 0 {
            if inLen > 0 { Memcpy(inBuf, 0, lent); }
            assert inBuf[..oldSize] == was;
            Memcpy(inBuf, oldSize, src);
            assert inBuf[..newSize] == was + src;
            SetInLen(newSize);
          }
          return true;
        }
        MoveToBlob(newSize);
      }
      ok := blob.Append(src);
    }
  }

  // ---- fon9_CompareBytes ----

  /** memcmp: the sign of the first difference. */
  function MemCmp(a: Bytes, b: Bytes): int
    requires |a| == |b|
  {
    if a == [] then 0 else if a[0] < b[0] then -1 else if a[0] > b[0] then 1 else MemCmp(a[1..], b[1..])
  }

  function CompareBytes(a: Bytes, b: Bytes): int {
    if |a| == |b| then MemCmp(a, b)
    else if |a| < |b| then
      if a == [] then -1 else var c := MemCmp(a, b[..|a|]); if c == 0 then -1 else c
    else if b == [] then 1 else var c := MemCmp(a[..|b|], b); if c == 0 then 1 else c
  }

  /** Lexicographic order, a prefix first. */
  predicate Before(a: Bytes, b: Bytes) {
    b != [] && (a == [] || a[0] < b[0] || (a[0] == b[0] && Before(a[1..], b[1..])))
  }

  lemma {:induction false} MemCmpOrder(a: Bytes, b: Bytes)
    requires |a| == |b|
    ensures MemCmp(a, b) == if a == b then 0 else if Before(a, b) then -1 else 1
  {
    if a != [] && a[0] == b[0] {
      MemCmpOrder(a[1..], b[1..]);
      ConsTail(a);
      ConsTail(b);
    }
  }

  lemma {:induction false} BeforePrefix(a: Bytes, b: Bytes, k: nat)
    requires k <= |a| && k <= |b| && a[..k] != b[..k]
    ensures Before(a, b) <==> Before(a[..k], b[..k])
  {
    if a[0] == b[0] {
      assert a[..k] == [a[0]] + a[1..][..k - 1] && b[..k] == [b[0]] + b[1..][..k - 1];
      BeforePrefix(a[1..], b[1..], k - 1);
      assert a[..k][1..] == a[1..][..k - 1] && b[..k][1..] == b[1..][..k - 1];
    }
  }

  lemma {:induction false} PrefixBefore(a: Bytes, b: Bytes)
    requires |a| < |b| && a == b[..|a|]
    ensures Before(a, b) && !Before(b, a)
  {
    if a != [] {
      assert a[0] == b[0];
      assert a[1..] == b[1..][..|a| - 1];
      PrefixBefore(a[1..], b[1..]);
    }
  }

  lemma {:induction false} BeforeTotal(a: Bytes, b: Bytes)
    ensures a != b ==> (Before(a, b) <==> !Before(b, a))
    ensures !Before(a, a)
  {
    if a != [] {
      BeforeTotal(a[1..], a[1..]);
      if b != [] && a[0] == b[0] {
        BeforeTotal(a[1..], b[1..]);
        ConsTail(a);
        ConsTail(b);
      }
    }
  }

  lemma {:induction false} BeforeTransitive(a: Bytes, b: Bytes, c: Bytes)
    requires Before(a, b) && Before(b, c)
    ensures Before(a, c)
  {
    if a != [] && a[0] == b[0] && b[0] == c[0] { BeforeTransitive(a[1..], b[1..], c[1..]); }
  }

  /** CompareBytes is the lexicographic order of the contents, whatever their lengths. */
  lemma CompareIsOrder(a: Bytes, b: Bytes)
    ensures CompareBytes(a, b) == if a == b then 0 else if Before(a, b) then -1 else 1
  {
    var k := if |a| < |b| then |a| else |b|;
    assert a[..|a|] == a && b[..|b|] == b;
    MemCmpOrder(a[..k], b[..k]);
    BeforeTotal(a, b);
    if |a| != |b| {
      if a[..k] != b[..k] {
        BeforePrefix(a, b, k);
      } else if |a| < |b| {
        PrefixBefore(a, b);
      } else {
        PrefixBefore(b, a);
      }
    }
  }
}
