/** The chunked output buffers behind size-limited formatting. */
module Buffers {

  const BUFFER_SIZE := 256

  /** How a full buffer makes room: it writes to an output iterator, it turns from the caller's
      memory to its own, or it only counts. */
  datatype Variant = Generic | InPlace | Counting

  function Min(a: nat, b: nat): nat { if a < b then a else b }

  class Buffer {
    // The buffer proper: the elements ptr[..size], with room for capacity.
    var ptr: array<char>
    var size: nat
    var capacity: nat
    // The limit, and the number of elements already flushed.
    const limit: nat
    var count: nat
    const variant: Variant
    // The buffer's own memory, the caller's memory, and how much of it is in use.
    const data: array<char>
    const target: array<char>
    var out: nat
    // What the output iterator has been given.
    var sink: seq<char>

    /** Everything ever appended. */
    ghost var history: seq<char>
    /** Whether the result has been taken before the limit was reached: nothing more is written. */
    ghost var closed: bool

    ghost predicate ValidInPlace()
      reads this, data, target
    {
      && limit <= target.Length
      && if ptr == target then
           !closed && capacity == limit && out == 0 && count == 0 && size <= limit && target[..size] == history
         else
           && ptr == data && capacity == BUFFER_SIZE && out <= limit && out <= |history|
           && target[..out] == history[..out] && (!closed ==> out == limit <= count)
    }

    ghost predicate Valid()
      reads this, data, target
    {
      && data.Length == BUFFER_SIZE && data != target && size <= capacity && count + size == |history|
      && match variant
         case Generic =>
           && ptr == data && capacity == BUFFER_SIZE
           && data[..size] == history[count..] && sink == history[..Min(count, limit)]
         case InPlace => ValidInPlace()
         case Counting => ptr == data && capacity == BUFFER_SIZE
    }

    /** Nothing is ever written behind the limit. */
    twostate predicate RestUntouched()
      reads target
    {
      forall i :: limit <= i < target.Length ==> target[i] == old(target[i])
    }

    constructor (variant: Variant, target: array<char>, limit: nat)
      requires variant == InPlace ==> limit <= target.Length
      ensures Valid() && history == [] && !closed && sink == []
      ensures this.variant == variant && this.target == target && this.limit == limit && fresh(data)
      ensures forall i :: 0 <= i < target.Length ==> target[i] == old(target[i])
    {
      this.variant, this.target, this.limit := variant, target, limit;
      var own := new char[BUFFER_SIZE];
      data := own;
      size, count, out, sink := 0, 0, 0, [];
      if variant == InPlace {
        ptr, capacity := target, limit;
      } else {
        ptr, capacity := own, BUFFER_SIZE;
      }
      history, closed := [], false;
    }

    /** How many of the next elements are within the limit; all of them are counted. */
    method Limit(n: nat) returns (r: nat)
      modifies this`count
      ensures count == old(count) + n && r == Min(n, if limit > old(count) then limit - old(count) else 0)
    {
      var left := if limit > count then limit - count else 0;
      count := count + n;
      r := Min(n, left);
    }

    /** Gives the output iterator what is within the limit of n elements. */
    method CopyOut(n: nat)
      requires variant == Generic && data.Length == BUFFER_SIZE && n <= BUFFER_SIZE && count + n == |history|
      requires data[..n] == history[count..] && sink == history[..Min(count, limit)]
      modifies this`count, this`sink
      ensures count == old(count) + n && sink == history[..Min(count, limit)]
    {
      var end := Limit(n);
      ghost var before := count - n;
      var i := 0;
      while i < end
        invariant count == old(count) + n && 0 <= i <= end && sink == history[..Min(before, limit) + i]
      {
        assert data[i] == data[..n][i] == history[before + i];
        sink := sink + [data[i]];
        i := i + 1;
      }
    }

    method Flush()
      requires Valid()
      modifies this
      ensures Valid() && history == old(history) && size == 0 && capacity > 0
      ensures closed == (old(closed) || (variant == InPlace && old(ptr) == target && old(size) < limit))
      ensures variant == Generic ==> sink == history[..Min(|history|, limit)]
      ensures variant == InPlace && !old(closed) ==> out == Min(|history|, limit)
      ensures variant == InPlace && old(closed) ==> out == old(out)
    {
      match variant
      case Generic =>
        var n := size;
        size := 0;
        CopyOut(n);
      case InPlace =>
        var n := Limit(size);
        if ptr == target {
          closed := closed || size < limit;
          out := out + n;
          ptr, capacity := data, BUFFER_SIZE;
        }
        size := 0;
      case Counting =>
        count := count + size;
        size := 0;
    }

    /** Makes room only by flushing, and only if the buffer is full. */
    method Grow()
      requires Valid()
      modifies this
      ensures Valid() && history == old(history) && closed == old(closed)
      ensures size <= old(size) && size < capacity
    {
      if size == if variant == InPlace then capacity else BUFFER_SIZE {
        Flush();
      }
    }

    method TryReserve(newCapacity: nat)
      requires Valid()
      modifies this
      ensures Valid() && history == old(history) && closed == old(closed)
      ensures size <= old(size) && (newCapacity > old(size) ==> size < capacity)
    {
      if newCapacity > capacity {
        Grow();
      }
    }

    method PushBack(value: char)
      requires Valid()
      modifies this, data, target
      ensures Valid() && history == old(history) + [value] && closed == old(closed) && RestUntouched()
    {
      TryReserve(size + 1);
      Store(value);
    }

    /** Appends where there is room. */
    method Store(value: char)
      requires Valid() && size < capacity
      modifies this, data, target
      ensures Valid() && history == old(history) + [value] && closed == old(closed) && RestUntouched()
    {
      ptr[size] := value;
      size := size + 1;
      history := history + [value];
    }

    /** Copies as much as fits, as often as it takes. */
    method Append(s: seq<char>)
      requires Valid()
      modifies this, data, target
      ensures Valid() && history == old(history) + s && closed == old(closed) && RestUntouched()
    {
      hide Valid, ValidInPlace;
      var begin := 0;
      while begin != |s|
        invariant 0 <= begin <= |s| && Valid() && closed == old(closed)
        invariant history == old(history) + s[..begin]
        invariant forall i :: limit <= i < target.Length ==> target[i] == old(target[i])
        decreases |s| - begin
      {
        var n := |s| - begin;
        TryReserve(size + n);
        var free := capacity - size;
        if free < n {
          n := free;
        }
        CopyIn(s[begin..begin + n]);
        assert s[..begin + n] == s[..begin] + s[begin..begin + n];
        begin := begin + n;
      }
      assert s[..|s|] == s;
    }

    method CopyElements(s: seq<char>)
      requires Valid() && size + |s| <= capacity
      modifies data, target
      ensures ptr[..size + |s|] == old(ptr[..size]) + s
      ensures forall k :: 0 <= k < target.Length && (ptr != target || size + |s| <= k) ==> target[k] == old(target[k])
    {
      var i := 0;
      while i < |s|
        invariant 0 <= i <= |s| && ptr[..size + i] == old(ptr[..size]) + s[..i]
        invariant forall k :: 0 <= k < target.Length && (ptr != target || size + i <= k) ==> target[k] == old(target[k])
      {
        ptr[size + i] := s[i];
        i := i + 1;
      }
    }

    /** Copies elements that fit behind those in the buffer. */
    method CopyIn(s: seq<char>)
      requires Valid() && size + |s| <= capacity
      modifies this`size, this`history, data, target
      ensures Valid() && history == old(history) + s
      ensures forall i :: limit <= i < target.Length ==> target[i] == old(target[i])
    {
      CopyElements(s);
      size := size + |s|;
      history := history + s;
    }

    /** Takes the result. */
    method Out()
      requires Valid()
      modifies this
      ensures Valid() && history == old(history)
      ensures variant == Generic ==> sink == history[..Min(|history|, limit)]
      ensures variant == InPlace && !old(closed) ==>
                out == Min(|history|, limit) && target[..out] == history[..out]
    {
      Flush();
    }

    /** The number of elements appended, written or not. */
    method Count() returns (n: nat)
      requires Valid()
      ensures n == |history|
    {
      n := count + size;
    }
  }

  function Flatten(pieces: seq<seq<char>>): seq<char>
  {
    if pieces == [] then [] else Flatten(pieces[..|pieces| - 1]) + pieces[|pieces| - 1]
  }

  /** Appends pieces of text, one character by push_back and anything else by append. */
  method AppendAll(buf: Buffer, pieces: seq<seq<char>>)
    requires buf.Valid() && !buf.closed
    modifies buf, buf.data, buf.target
    ensures buf.Valid() && !buf.closed && buf.history == old(buf.history) + Flatten(pieces)
    ensures forall i :: buf.limit <= i < buf.target.Length ==> buf.target[i] == old(buf.target[i])
  {
    assert pieces[..0] == [];
    for i := 0 to |pieces|
      invariant buf.Valid() && !buf.closed && buf.history == old(buf.history) + Flatten(pieces[..i])
      invariant forall k :: buf.limit <= k < buf.target.Length ==> buf.target[k] == old(buf.target[k])
    {
      assert pieces[..i + 1][..i] == pieces[..i];
      if |pieces[i]| == 1 {
        buf.PushBack(pieces[i][0]);
        assert pieces[i] == [pieces[i][0]];
      } else {
        buf.Append(pieces[i]);
      }
    }
    assert pieces[..|pieces|] == pieces;
  }

  /** Formatting to at most n elements of memory, or of an output iterator: what is written is
      the beginning of the text, and the size returned is that of all of it. */
  method FormatToN(inPlace: bool, target: array<char>, n: nat, pieces: seq<seq<char>>)
    returns (written: seq<char>, size: nat)
    requires inPlace ==> n <= target.Length
    modifies target
    ensures size == |Flatten(pieces)| && written == if size < n then Flatten(pieces) else Flatten(pieces)[..n]
    ensures inPlace ==> target[..|written|] == written
    ensures forall i :: (if inPlace then n else 0) <= i < target.Length ==> target[i] == old(target[i])
  {
    var own := target;
    if !inPlace {
      own := new char[0];
    }
    var buf := new Buffer(if inPlace then InPlace else Generic, own, n);
    AppendAll(buf, pieces);
    assert [] + Flatten(pieces) == Flatten(pieces);
    buf.Out();
    size := buf.Count();
    written := if inPlace then own[..buf.out] else buf.sink;
  }

  /** Counting what would be written. */
  method FormattedSize(pieces: seq<seq<char>>) returns (size: nat)
    ensures size == |Flatten(pieces)|
  {
    var none := new char[0];
    var buf := new Buffer(Counting, none, 0);
    AppendAll(buf, pieces);
    size := buf.Count();
  }
}
