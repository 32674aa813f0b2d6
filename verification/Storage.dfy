/** The storage file behind kernel_read and kernel_write: a fixed number of bytes, transfers
    that may stop short or fail at any time. */
module Storage {
  import opened Types
  import opened Translation

  /** The bytes a transfer that reported `n` has moved: none if it reported an error. */
  function Moved(n: int): nat {
    if n < 0 then 0 else n
  }

  class StorageFile {
    var bytes: seq<byte>

    /** How many transfers within the file have fallen short. */
    ghost var faults: nat

    ghost predicate Within(offset: int, count: nat)
      reads this`bytes
    {
      0 <= offset && offset + count <= |bytes|
    }

    /** kernel_write: the bytes moved, a prefix of those given, have landed at the offset; it falls
        short only by a fault. */
    method Write(offset: nat, data: seq<byte>) returns (n: int)
      requires Within(offset, |data|)
      modifies this
      ensures n <= |data|
      ensures bytes == Splice(old(bytes), offset, data[..Moved(n)])
      ensures faults == old(faults) + if n == |data| then 0 else 1
    {
      n := *;
      if n > |data| {
        n := |data|;
      }
      bytes := Splice(bytes, offset, data[..Moved(n)]);
      faults := faults + if n == |data| then 0 else 1;
    }

    /** kernel_read: the bytes moved are those at the offset. Within the file it falls short only
        by a fault; beyond its end it always does. */
    method Read(offset: int, count: nat) returns (n: int, data: seq<byte>)
      modifies this`faults
      ensures n <= count && |data| == Moved(n)
      ensures data != [] ==> Within(offset, |data|) && data == bytes[offset..offset + |data|]
      ensures n == count ==> Within(offset, count)
      ensures faults == old(faults) + if Within(offset, count) && n != count then 1 else 0
    {
      var room := if 0 <= offset <= |bytes| then |bytes| - offset else -1;
      n := *;
      if n > count {
        n := count;
      }
      if n > room {
        n := room;
      }
      data := if n > 0 then bytes[offset..offset + n] else [];
      faults := faults + if Within(offset, count) && n != count then 1 else 0;
    }
  }
}
