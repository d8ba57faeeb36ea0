/** The byte buffer: a window of an array with a position and a limit. Growing it refines an
    unbounded log of appended bytes. Exceptions are `false` or `None` results. */
module ByteBuffers {
  import opened Words
  import opened WireFormat

  const INT32_MAX := 0x7fff_ffff

  // ---------- doubling ----------

  /** Doubles `capacity` until it covers `request`. */
  ghost function Doubled(capacity: nat, request: int): (c: nat)
    requires capacity > 0
    ensures c >= request && c >= capacity
    decreases request - capacity
  {
    if capacity >= request then capacity else Doubled(2 * capacity, request)
  }

  ghost function Pow2(k: nat): (p: nat)
    ensures p > 0
  {
    if k == 0 then 1 else 2 * Pow2(k - 1)
  }

  /** The new capacity is a power of two times the old one. */
  lemma {:induction false} DoubledIsMultiple(capacity: nat, request: int) returns (k: nat)
    requires capacity > 0
    ensures Doubled(capacity, request) == capacity * Pow2(k)
    decreases request - capacity
  {
    if capacity >= request { return 0; }
    var j := DoubledIsMultiple(2 * capacity, request);
    assert 2 * capacity * Pow2(j) == capacity * (2 * Pow2(j));
    return j + 1;
  }

  /** No smaller such multiple covers the request. */
  lemma {:induction false} DoubledIsLeast(capacity: nat, request: int, k: nat)
    requires capacity > 0 && capacity * Pow2(k) >= request
    ensures Doubled(capacity, request) <= capacity * Pow2(k)
    decreases k
  {
    if capacity >= request {
      assert capacity * Pow2(k) >= capacity * 1;
    } else {
      assert k > 0;
      assert 2 * capacity * Pow2(k - 1) == capacity * (2 * Pow2(k - 1));
      DoubledIsLeast(2 * capacity, request, k - 1);
    }
  }

  /** Doubling stays in 32 bits for every request up to 2^30, and from 8192 for no other. */
  lemma {:induction false} DoubledInRange(capacity: nat, request: int)
    requires 0 < capacity <= INT32_MAX && request <= 0x4000_0000
    ensures Doubled(capacity, request) <= INT32_MAX
    decreases request - capacity
  {
    if capacity < request { DoubledInRange(2 * capacity, request); }
  }

  lemma DoubledFrom8192(request: int)
    ensures Doubled(8192, request) <= INT32_MAX <==> request <= 0x4000_0000
  {
    if request <= 0x4000_0000 {
      DoubledInRange(8192, request);
    } else {
      var k := DoubledIsMultiple(8192, request);
      if k <= 17 { PowersGrow(k, 17); } else { PowersGrow(18, k); }
      PowersOfTwo();
    }
  }

  lemma {:induction false} PowersGrow(j: nat, k: nat)
    requires j <= k
    ensures Pow2(j) <= Pow2(k)
    decreases k
  {
    if j < k { PowersGrow(j, k - 1); }
  }

  lemma PowersOfTwo()
    ensures Pow2(17) == 0x2_0000 && Pow2(18) == 0x4_0000
  {
    assert Pow2(6) == 64 && Pow2(12) == 0x1000 && Pow2(15) == 0x8000;
  }

  lemma SliceOfSlice(s: seq<Byte>, i: nat, j: nat, n: nat)
    requires i + n <= j <= |s|
    ensures s[i..j][..n] == s[i..i + n] && s[i..j][n..] == s[i + n..j]
  {
  }

  lemma SliceWithin(s: seq<Byte>, i: nat, j: nat, k: nat, n: nat)
    requires i <= j <= |s| && k + n <= j - i
    ensures s[i..j][k..k + n] == s[i + k..i + k + n]
  {
    SliceOfSlice(s, i, j, k + n);
    SliceOfSlice(s, i, i + k + n, k);
  }

  lemma SliceOfRest(s: seq<Byte>, i: nat, n: nat)
    requires i + n <= |s|
    ensures s[i..][..n] == s[i..i + n] && s[i..][n..] == s[i + n..]
  {
  }

  lemma SameSlice(before: seq<Byte>, after: seq<Byte>, i: nat, j: nat)
    requires i <= j <= |before| == |after| && forall k :: i <= k < j ==> before[k] == after[k]
    ensures before[i..j] == after[i..j]
  {
  }

  lemma LogGrows(before: seq<Byte>, after: seq<Byte>, i: nat, j: nat, bytes: seq<Byte>)
    requires i <= j && j + |bytes| <= |before| == |after| && after[j..j + |bytes|] == bytes
    requires forall k :: 0 <= k < j ==> after[k] == before[k]
    ensures after[i..j + |bytes|] == before[i..j] + bytes
  {
    SameSlice(before, after, i, j);
    JoinSlices(after, i, j, j + |bytes|);
  }

  lemma JoinSlices(s: seq<Byte>, i: nat, j: nat, k: nat)
    requires i <= j <= k <= |s|
    ensures s[i..k] == s[i..j] + s[j..k]
  {
  }

  lemma CutSlice(s: seq<Byte>, i: nat, j: nat, a: seq<Byte>, b: seq<Byte>)
    requires i <= j <= |s| && s[i..j] == a + b
    ensures i + |a| <= j && s[i..i + |a|] == a && s[i + |a|..j] == b
  {
    assert |s[i..j]| == |a| + |b|;
    SliceOfSlice(s, i, j, |a|);
    assert (a + b)[..|a|] == a && (a + b)[|a|..] == b;
  }

  // ---------- the buffer ----------

  class ByteBuffer {
    var data: array<Byte>
    var base: nat
    var position: int
    var limit: int
    var capacity: int

    predicate Valid() reads this {
      && 0 <= capacity <= INT32_MAX && base + capacity <= data.Length
      && 0 <= position <= capacity && 0 <= limit <= capacity
    }

    /** The bytes below the position. */
    function Log(): (log: seq<Byte>)
      requires Valid()
      reads this, data
      ensures |log| == position
    {
      data[base..base + position]
    }

    /** The bytes below the limit. */
    function Window(): (all: seq<Byte>)
      requires Valid()
      reads this, data
      ensures |all| == limit
    {
      data[base..base + limit]
    }

    /** The bytes a reader may still take. */
    function Left(): (left: seq<Byte>)
      requires Valid()
      reads this, data
      ensures |left| == if position <= limit then limit - position else 0
      ensures position == 0 ==> left == Window()
    {
      if position <= limit then data[base + position..base + limit] else []
    }

    lemma LeftInWindow()
      requires Valid() && position <= limit
      ensures Left() == Window()[position..]
    {
      SliceOfSlice(data[..], base, base + limit, position);
    }

    lemma LogIs()
      requires Valid()
      ensures Log() == data[..][base..base + position]
    {
    }

    lemma LeftIs()
      requires Valid() && position <= limit
      ensures Left() == data[..][base + position..base + limit]
    {
    }

    constructor (buffer: array<Byte>, offset: nat, size: nat)
      requires offset + size <= buffer.Length && size <= INT32_MAX
      ensures Valid() && data == buffer && base == offset && position == 0 && limit == capacity == size
      ensures Window() == buffer[offset..offset + size]
    {
      data, base, position, limit, capacity := buffer, offset, 0, size, size;
    }

    constructor Allocate(size: nat)
      requires size <= INT32_MAX
      ensures Valid() && fresh(data) && base == position == 0 && limit == capacity == size
    {
      data := new Byte[size];
      base, position, limit, capacity := 0, 0, size, size;
    }

    method Flip()
      requires Valid()
      modifies this`position, this`limit
      ensures Valid() && position == 0 && limit == old(position) && Left() == old(Log())
    {
      limit := position;
      position := 0;
    }

    method Clear()
      requires Valid()
      modifies this`position, this`limit
      ensures Valid() && position == 0 && limit == capacity
    {
      limit := capacity;
      position := 0;
    }

    method SetPosition(index: int) returns (ok: bool)
      requires Valid()
      modifies this`position
      ensures Valid() && (ok <==> 0 <= index <= limit)
      ensures position == if ok then index else old(position)
      ensures Window() == old(Window()) && (ok ==> Left() == Window()[index..])
    {
      ok := 0 <= index <= limit;
      if ok {
        position := index;
        SliceOfSlice(data[..], base, base + limit, index);
      }
    }

    method SetLimit(newLimit: int) returns (ok: bool)
      requires Valid()
      modifies this`limit
      ensures Valid() && (ok <==> 0 <= newLimit <= capacity)
      ensures limit == if ok then newLimit else old(limit)
    {
      ok := 0 <= newLimit <= capacity;
      if ok { limit := newLimit; }
    }

    /** Reserves `length` bytes at the position. */
    method CheckGetPutIndex(length: int) returns (index: Option<nat>)
      requires Valid()
      modifies this`position
      ensures Valid() && (index.Some? <==> 0 <= length <= limit - old(position))
      ensures index.Some? ==> index.value == old(position) && position == old(position) + length
      ensures index.None? ==> position == old(position)
    {
      if limit - position < length || length < 0 { return None; }
      index := Some(position);
      position := position + length;
    }

    /** Writes `bytes` at an index of the window. */
    method Write(index: nat, bytes: seq<Byte>)
      requires Valid() && index + |bytes| <= capacity
      modifies data
      ensures data[base + index..base + index + |bytes|] == bytes
      ensures forall k :: 0 <= k < base + index || base + index + |bytes| <= k < data.Length ==> data[k] == old(data[k])
    {
      for i := 0 to |bytes|
        invariant data[base + index..base + index + i] == bytes[..i]
        invariant forall k :: 0 <= k < base + index || base + index + |bytes| <= k < data.Length ==>
                    data[k] == old(data[k])
      {
        data[base + index + i] := bytes[i];
      }
    }

    /** Appends to the log what fits below the limit. */
    method Put(bytes: seq<Byte>) returns (ok: bool)
      requires Valid()
      modifies this`position, data
      ensures Valid() && (ok <==> |bytes| <= limit - old(position))
      ensures Log() == old(Log()) + if ok then bytes else []
      ensures forall k :: 0 <= k < base + old(position) || base + position <= k < data.Length ==>
                data[k] == old(data[k])
    {
      hide ByteBuffer.Window, ByteBuffer.Left, ByteBuffer.Log;
      LogIs();
      var index := CheckGetPutIndex(|bytes|);
      ok := index.Some?;
      if ok {
        ghost var before := data[..];
        Write(index.value, bytes);
        LogGrows(before, data[..], base, base + index.value, bytes);
      }
      LogIs();
    }

    /** Overwrites below the limit, without moving. */
    method PutAt(index: int, bytes: seq<Byte>) returns (ok: bool)
      requires Valid()
      modifies data
      ensures ok <==> 0 <= index && |bytes| <= limit - index
      ensures ok ==> data[base + index..base + index + |bytes|] == bytes
      ensures ok ==> forall k :: 0 <= k < base + index || base + index + |bytes| <= k < data.Length ==>
                data[k] == old(data[k])
      ensures !ok ==> data[..] == old(data[..])
    {
      ok := !(index < 0 || |bytes| > limit - index);
      if ok { Write(index, bytes); }
    }

    method PutInt(width: nat, v: int) returns (ok: bool)
      requires Valid()
      modifies this`position, data
      ensures Valid() && (ok <==> width <= limit - old(position))
      ensures Log() == old(Log()) + if ok then EncodeInt(width, v) else []
    {
      ok := Put(EncodeInt(width, v));
    }

    /** A length and the bytes; the length is written even when the bytes do not fit. */
    method PutBytes(bytes: seq<Byte>) returns (ok: bool)
      requires Valid()
      modifies this`position, data
      ensures Valid() && (ok <==> 4 + |bytes| <= limit - old(position))
      ensures ok ==> Log() == old(Log()) + EncodeBytes(bytes)
    {
      hide EncodeInt;
      ok := PutInt(4, |bytes|);
      if ok {
        ok := Put(bytes);
        assert ok ==> Log() == old(Log()) + (EncodeInt(4, |bytes|) + bytes);
      }
    }

    /** Appends what the other buffer has left. */
    method PutBuffer(other: ByteBuffer) returns (ok: bool)
      requires Valid() && other.Valid() && other != this && other.data != data && other.position <= other.limit
      modifies this`position, data, other`position
      ensures Valid() && other.Valid() &&
              (ok <==> |old(other.Left())| <= limit - old(position) || |old(other.Left())| == 0)
      ensures ok ==> Log() == old(Log()) + old(other.Left()) && other.position == other.limit
    {
      var remaining := other.limit - other.position;
      if remaining == 0 {
        assert other.Left() == [];
        return true;
      }
      ok := Put(other.data[other.base + other.position..other.base + other.limit]);
      if ok { other.position := other.limit; }
    }

    /** Takes the next bytes. */
    method Get(length: int) returns (bytes: Option<seq<Byte>>)
      requires Valid()
      modifies this`position
      ensures Valid() && (bytes.Some? <==> 0 <= length <= limit - old(position))
      ensures bytes.Some? ==> bytes.value == old(Left())[..length] && Left() == old(Left())[length..]
      ensures bytes.Some? ==> |bytes.value| == length && position == old(position) + length
      ensures bytes.None? ==> position == old(position)
      ensures Window() == old(Window())
    {
      hide ByteBuffer.Left;
      if position <= limit { LeftIs(); }
      var index := CheckGetPutIndex(length);
      if index.None? { return None; }
      bytes := Some(data[base + index.value..base + index.value + length]);
      SliceOfSlice(data[..], base + index.value, base + limit, length);
      LeftIs();
    }

    method GetInt(width: nat) returns (v: Option<int>)
      requires Valid() && width > 0
      modifies this`position
      ensures Valid()
      ensures match ReadInt(width, old(Left()))
              case Fail => v == None && position == old(position)
              case Done(x, rest) => v == Some(x) && Left() == rest && position == old(position) + width <= limit
    {
      var bytes := Get(width);
      if bytes.None? { return None; }
      v := Some(DecodeInt(bytes.value));
    }

    method GetAt(index: int, length: int) returns (bytes: Option<seq<Byte>>)
      requires Valid()
      ensures bytes.Some? <==> 0 <= index && 0 <= length <= limit - index
      ensures bytes.Some? ==> bytes.value == Window()[index..index + length]
    {
      if index < 0 || length > limit - index || length < 0 { return None; }
      bytes := Some(data[base + index..base + index + length]);
      SliceWithin(data[..], base, base + limit, index, length);
    }

    method GetIntAt(index: int, width: nat) returns (v: Option<int>)
      requires Valid() && width > 0
      ensures v.Some? <==> 0 <= index && width <= limit - index
      ensures v.Some? ==> v.value == DecodeInt(Window()[index..index + width])
    {
      var bytes := GetAt(index, width);
      if bytes.None? { return None; }
      v := Some(DecodeInt(bytes.value));
    }

    /** A window over what is left, sharing its bytes. */
    method Slice() returns (b: ByteBuffer)
      requires Valid() && position <= limit
      modifies this`position
      ensures Valid() && position == limit && Window() == old(Window())
      ensures fresh(b) && b.Valid() && b.data == data && b.base == base + old(position)
      ensures b.position == 0 && b.limit == b.capacity && b.Left() == old(Left()) && Left() == []
    {
      b := new ByteBuffer(data, base + position, limit - position);
      position := limit;
    }

    /** Growth keeps the log. */
    method EnsureCapacity(request: int)
      requires Valid() && 0 < capacity && request <= 0x4000_0000
      modifies this`data, this`base, this`capacity, this`limit
      ensures Valid() && Log() == old(Log()) && (data == old(data) || fresh(data))
      ensures capacity == Doubled(old(capacity), request)
      ensures limit == if old(capacity) < request then capacity else old(limit)
    {
      if capacity < request {
        var newCapacity: nat := capacity;
        while newCapacity < request
          invariant 0 < newCapacity <= INT32_MAX && Doubled(newCapacity, request) == Doubled(capacity, request)
          decreases request - newCapacity
        {
          newCapacity := newCapacity * 2;
        }
        Grow(newCapacity);
      }
    }

    method Grow(newCapacity: nat)
      requires Valid() && capacity <= newCapacity <= INT32_MAX
      modifies this`data, this`base, this`capacity, this`limit
      ensures Valid() && Log() == old(Log()) && fresh(data) && limit == capacity == newCapacity
    {
      var newBuffer := new Byte[newCapacity];
      for i := 0 to position
        modifies newBuffer
        invariant newBuffer[..i] == data[base..base + i]
      {
        newBuffer[i] := data[base + i];
      }
      data, base, capacity, limit := newBuffer, 0, newCapacity, newCapacity;
    }

    /** Makes room for `amount` more bytes, if the limit is at the capacity. */
    method EnsureRemaining(amount: nat)
      requires Valid() && 0 < capacity && position + amount <= 0x4000_0000
      modifies this`data, this`base, this`capacity, this`limit
      ensures Valid() && Log() == old(Log()) && (data == old(data) || fresh(data)) && capacity >= old(capacity)
      ensures capacity ==
              if old(limit) - position < amount then Doubled(old(capacity), position + amount) else old(capacity)
      ensures old(limit == capacity) ==> limit == capacity && limit - position >= amount
    {
      if limit - position < amount { EnsureCapacity(position + amount); }
    }
  }
}
