/** SEF::COMMON::ByteArray: an owned buffer with a size and a capacity. */
module ByteArrays {
  import opened Common

  class ByteArray {
    var bytes: array?<Byte>
    var size: nat
    var maxSize: nat

    /** The size is within the capacity and the capacity is what was allocated. */
    ghost predicate Valid()
      reads this
    {
      && size <= maxSize
      && (if bytes == null then maxSize == 0 else bytes.Length == maxSize)
    }

    ghost function Contents(): Str
      requires Valid()
      reads this, bytes
    {
      if bytes == null then [] else bytes[..size]
    }

    constructor ()
      ensures Valid() && bytes == null && Contents() == []
    {
      bytes, size, maxSize := null, 0, 0;
    }

    /** A zeroed array of the given size. */
    constructor Sized(n: nat)
      ensures Valid() && size == maxSize == n && (bytes != null ==> fresh(bytes))
      ensures |Contents()| == n && forall i :: 0 <= i < n ==> Contents()[i] == 0
    {
      bytes, size, maxSize := null, 0, 0;
      new;
      if maxSize < n {
        ByteFree();
        ByteMalloc(n);
      }
      size := n;
    }

    /**
     The string and its terminator. For the empty string nothing is allocated
     although the size becomes one: exactly then the invariant is broken.
     */
    constructor FromString(v: Str)
      ensures Valid() <==> v != []
      ensures v != [] ==> Contents() == v + [0] && fresh(bytes)
    {
      bytes, size, maxSize := null, 0, 0;
      new;
      if maxSize < |v| {
        ByteFree();
        ByteMalloc(|v| + 1);
      }
      Memcpy(0, v);
      size := |v| + 1;
    }

    constructor FromBuffer(buf: Str)
      ensures Valid() && Contents() == buf && (bytes != null ==> fresh(bytes))
    {
      bytes, size, maxSize := null, 0, 0;
      new;
      SetBytes(buf);
    }

    // ------------------------------------------------------------- allocation

    method ByteFree()
      requires Valid()
      modifies this
      ensures Valid() && bytes == null && size == maxSize == 0
    {
      if bytes != null {
        bytes := null;
        size := 0;
        maxSize := 0;
      }
    }

    method ByteMalloc(n: nat)
      modifies this
      ensures size == old(size) && maxSize == n
      ensures bytes != null && fresh(bytes) && bytes.Length == n && forall i :: 0 <= i < n ==> bytes[i] == 0
    {
      bytes := new Byte[n](_ => 0);
      maxSize := n;
    }

    /** A larger buffer with the same contents. */
    method ByteExternMalloc(n: nat)
      requires Valid() && size <= n
      modifies this
      ensures Valid() && Contents() == old(Contents()) && maxSize == n && fresh(bytes) && size == old(size)
    {
      var oldSize := size;
      var temp := new Byte[n](_ => 0);
      if size > 0 {
        forall i | 0 <= i < size {
          temp[i] := bytes[i];
        }
      }
      ByteFree();
      size := oldSize;
      maxSize := n;
      bytes := temp;
    }

    /** memcpy(m_bytes + at, buf, |buf|) */
    method Memcpy(at: nat, buf: Str)
      requires buf != [] ==> bytes != null && at + |buf| <= bytes.Length
      modifies bytes
      ensures buf != [] ==> bytes[..] == old(bytes[..at]) + buf + old(bytes[at + |buf|..])
      ensures buf == [] ==> bytes != null ==> bytes[..] == old(bytes[..])
    {
      if buf != [] {
        forall i | 0 <= i < |buf| {
          bytes[at + i] := buf[i];
        }
      }
    }

    /** Room for n bytes; what was in use reads as zero afterwards, and the size is kept or reset. */
    method ReMalloc(n: nat)
      requires Valid()
      modifies this, bytes
      ensures Valid() && maxSize >= n && size <= old(size)
      ensures maxSize == if old(maxSize) < n then n else old(maxSize)
      ensures forall i :: 0 <= i < size ==> Contents()[i] == 0
      ensures bytes == old(bytes) || fresh(bytes)
    {
      if maxSize < n {
        if bytes != null {
          ByteFree();
        }
        ByteMalloc(n);
      } else if bytes != null {
        forall i | 0 <= i < size {
          bytes[i] := 0;
        }
      }
    }

    // ---------------------------------------------------------------- contents

    method SetSize(n: nat) returns (ok: bool)
      requires Valid()
      modifies this`size
      ensures Valid() && ok == (n <= maxSize)
      ensures size == if ok then n else old(size)
    {
      if maxSize < n {
        return false;
      }
      size := n;
      ok := true;
    }

    method SetBytes(buf: Str)
      requires Valid()
      modifies this, bytes
      ensures Valid() && Contents() == buf
      ensures maxSize == if old(maxSize) < |buf| then |buf| else old(maxSize)
      ensures bytes == old(bytes) || fresh(bytes)
    {
      if maxSize < |buf| {
        ByteFree();
        ByteMalloc(|buf|);
      }
      Memcpy(0, buf);
      size := |buf|;
    }

    method SetTwo(buf: Str, buf2: Str)
      requires Valid()
      modifies this, bytes
      ensures Valid() && Contents() == buf + buf2
      ensures bytes == old(bytes) || fresh(bytes)
    {
      if maxSize > |buf| + |buf2| {
        forall i | 0 <= i < size {
          bytes[i] := 0;
        }
        size := |buf| + |buf2|;
      } else {
        ByteFree();
        size := |buf| + |buf2|;
        ByteMalloc(size);
      }
      Memcpy(0, buf);
      Memcpy(|buf|, buf2);
    }

    /** Appends within the capacity, or leaves everything as it was. */
    method Append(buf: Str) returns (ok: bool)
      requires Valid()
      modifies this`size, bytes
      ensures Valid()
      ensures ok == (buf != [] && |buf| <= maxSize - old(size))
      ensures Contents() == if ok then old(Contents()) + buf else old(Contents())
    {
      if buf == [] {
        return false;
      }
      if maxSize - size < |buf| {
        return false;
      }
      Memcpy(size, buf);
      size := size + |buf|;
      ok := true;
    }

    /** Appends both parts, growing when needed. */
    method AppendTwo(buf: Str, buf2: Str)
      requires Valid()
      modifies this, bytes
      ensures Valid() && Contents() == old(Contents()) + buf + buf2
      ensures bytes == old(bytes) || fresh(bytes)
    {
      if maxSize - size < |buf| + |buf2| {
        ByteExternMalloc(|buf| + |buf2| + size);
      }
      Memcpy(size, buf);
      size := size + |buf|;
      Memcpy(size, buf2);
      size := size + |buf2|;
    }

    /** Assignment copies an allocated array; from an unallocated one it leaves the target alone. */
    method Assign(right: ByteArray)
      requires Valid() && right.Valid()
      modifies this
      ensures Valid()
      ensures Contents() == if right.bytes == null then old(Contents()) else old(right.Contents())
      ensures this != right ==> right.Contents() == old(right.Contents())
      ensures bytes == old(bytes) || bytes == null || fresh(bytes)
      ensures this != right && right.bytes != null ==> fresh(bytes)
    {
      if this != right {
        if bytes != null && size < right.size {
          ByteFree();
        }
        if right.bytes != null {
          var source := right.bytes[..right.size];
          ByteMalloc(|source|);
          Memcpy(0, source);
          size := |source|;
        }
      }
    }

    method Plus(right: ByteArray) returns (sum: ByteArray)
      requires Valid() && right.Valid()
      ensures fresh(sum) && sum.Valid() && sum.Contents() == Contents() + right.Contents()
    {
      sum := new ByteArray();
      var total := size + right.size;
      if total > 0 {
        sum.ByteMalloc(total);
        if size > 0 {
          sum.Memcpy(0, bytes[..size]);
          sum.size := sum.size + size;
        }
        assert sum.bytes[..size] == Contents();
        if right.size > 0 {
          sum.Memcpy(size, right.bytes[..right.size]);
          sum.size := sum.size + right.size;
        }
      }
    }
  }
}
