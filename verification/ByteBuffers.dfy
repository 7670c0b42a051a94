/**
 A positioned byte buffer, as the codec uses it: relative puts and gets, flip, and one mark. The methods
 return false where the original throws.
 */
module ByteBuffers {
  import opened Words

  class ByteBuffer {
    const bytes: array<byte>
    var position: nat
    var limit: nat
    var mark: int  // negative when no mark is set

    ghost predicate Valid()
      reads this
    {
      position <= limit <= bytes.Length && mark <= position
    }

    /** What has been put so far. */
    ghost function Written(): Bytes
      requires Valid()
      reads this, bytes
    {
      bytes[..position]
    }

    /** Everything that can be read. */
    ghost function Content(): Bytes
      requires Valid()
      reads this, bytes
    {
      bytes[..limit]
    }

    constructor AllocateDirect(capacity: nat)
      ensures Valid() && fresh(bytes) && bytes.Length == capacity
      ensures position == 0 && limit == capacity && mark < 0
    {
      bytes := new byte[capacity];
      position, limit, mark := 0, capacity, -1;
    }

    method Put(src: Bytes, offset: nat, length: nat) returns (ok: bool)
      requires Valid() && offset + length <= |src|
      modifies `position, bytes
      ensures Valid()
      ensures ok == (old(position) + length <= limit)
      ensures Written() == if ok then old(Written()) + src[offset..offset + length] else old(Written())
    {
      if length > limit - position {
        return false;
      }
      var i := 0;
      while i < length
        invariant i <= length && position == old(position) && Valid()
        invariant bytes[..position + i] == old(Written()) + src[offset..offset + i]
      {
        bytes[position + i] := src[offset + i];
        i := i + 1;
      }
      position := position + length;
      return true;
    }

    method Get(length: nat) returns (ok: bool, dst: Bytes)
      requires Valid()
      modifies `position
      ensures Valid()
      ensures ok == (old(position) + length <= limit)
      ensures ok ==> position == old(position) + length && dst == Content()[old(position)..position]
    {
      dst := [];
      if length > limit - position {
        return false, dst;
      }
      dst := bytes[position..position + length];
      assert dst == Content()[position..position + length];
      position := position + length;
      return true, dst;
    }

    method Flip()
      requires Valid()
      modifies `position, `limit, `mark
      ensures Valid() && position == 0 && limit == old(position)
      ensures Content() == old(Written())
    {
      limit, position, mark := position, 0, -1;
    }

    method Mark()
      requires Valid()
      modifies `mark
      ensures Valid() && mark == position
    {
      mark := position;
    }

    /** Moves the position; a mark beyond it is lost. */
    method Position(newPosition: int) returns (ok: bool)
      requires Valid()
      modifies `position, `mark
      ensures Valid()
      ensures ok == (0 <= newPosition <= limit)
      ensures ok ==> position == newPosition && mark == if old(mark) <= newPosition then old(mark) else -1
    {
      if newPosition < 0 || newPosition > limit {
        return false;
      }
      position := newPosition;
      if mark > position {
        mark := -1;
      }
      return true;
    }

    method Reset() returns (ok: bool)
      requires Valid()
      modifies `position
      ensures Valid()
      ensures ok == (0 <= mark)
      ensures ok ==> position == mark
    {
      if mark < 0 {
        return false;
      }
      position := mark;
      return true;
    }
  }
}
