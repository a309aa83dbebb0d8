/** The growable buffer of the session layer. */
module ByteArrays {
  import opened Bytes

  /** All but the first n bytes. */
  function Drop(s: bytes, n: nat): bytes {
    if n < |s| then s[n..] else []
  }

  class ByteArray {
    var data: array?<byte>
    var size: nat
    var cap: nat

    ghost predicate Valid()
      reads this
    {
      if data == null then size == 0 == cap else size <= cap == data.Length
    }

    ghost function Contents(): bytes
      requires Valid()
      reads this, data
    {
      if data == null then [] else data[..size]
    }

    constructor ()
      ensures Valid() && data == null && Contents() == []
    {
      data, size, cap := null, 0, 0;
    }

    /** A copy of the given bytes. */
    constructor Copy(src: bytes)
      ensures Valid() && data != null && fresh(data) && Contents() == src
    {
      var a := new byte[|src|](i requires 0 <= i < |src| => src[i]);
      data, size, cap := a, |src|, |src|;
    }

    /** Appends what the other holds; the storage is replaced only if it is too small. */
    method Append(arr: ByteArray?)
      requires Valid() && (arr != null ==> arr.Valid() && arr != this && (arr.data != null ==> arr.data != data))
      modifies this, data
      ensures Valid() && (data == old(data) || fresh(data))
      ensures Contents() == old(Contents()) + if arr == null then [] else old(arr.Contents())
    {
      if arr != null && arr.data != null {
        ghost var before, more := Contents(), arr.Contents();
        var n := size + arr.size;
        if cap < n {
          data := Realloc(n);
          cap := n;
        }
        if data != null {
          forall i | 0 <= i < arr.size {
            data[size + i] := arr.data[i];
          }
          assert data[..n] == before + more;
          size := n;
        }
      }
    }

    /** realloc: new storage with the old contents. */
    method Realloc(n: nat) returns (a: array<byte>)
      requires Valid() && size <= n
      ensures fresh(a) && a.Length == n && a[..size] == Contents()
    {
      if data == null {
        a := new byte[n];
      } else {
        a := new byte[n](i requires 0 <= i < n reads this, data =>
          if i < size && data != null && i < data.Length then data[i] else '\0');
      }
    }

    /** Drops the first n bytes, or all if there are fewer; the same storage goes on to be used. */
    method Truncate(n: nat)
      requires Valid()
      modifies this, data
      ensures Valid() && data == old(data)
      ensures Contents() == Drop(old(Contents()), n)
    {
      if data == null {
        return;
      }
      var k := if n < size then n else size;
      MoveDown(data, 0, k, size - k);
      size := size - k;
    }

    /** A copy of the contents for a reader. */
    method Read() returns (s: bytes)
      requires Valid()
      ensures s == Contents()
    {
      s := if data == null then [] else data[..size];
    }
  }
}
