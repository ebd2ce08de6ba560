/** The always-full ring buffer: a vector of slots and a signed rotation offset.
    Every access maps a logical index to a slot with RemEuclid(offset + i, N). */
module RingBuffers {
  import opened RingAlgebra

  datatype Option<T> = None | Some(value: T)

  class RingBuffer<T> {
    var elements: seq<T>
    var currentIndex: int

    /** The contents in logical order, as the iterators yield them. */
    ghost function Contents(): (v: seq<T>)
      reads this
      ensures |v| == |elements|
    {
      View(elements, currentIndex)
    }

    /** `new(size, default_value)`: `size` copies of the default value, not
        rotated. A size of 0 gives an empty buffer. */
    constructor (size: nat, defaultValue: T)
      ensures elements == seq(size, _ => defaultValue)
      ensures currentIndex == 0
      ensures Contents() == elements
    {
      var filled := Resized([], size, defaultValue);
      ViewUnrotated(filled);
      elements := filled;
      currentIndex := 0;
    }

    function IsEmpty(): (empty: bool)
      reads this
      ensures empty <==> Len() == 0
      ensures empty <==> Contents() == []
    {
      |elements| == 0
    }

    function Len(): (n: nat)
      reads this
      ensures n == |Contents()|
    {
      |elements|
    }

    /** `get_array_index`: the slot holding logical index `index`, that is,
        the slot whose distance from the offset is congruent to `index`. The
        remainder by a zero length panics in the source. */
    function GetArrayIndex(index: int): (slot: nat)
      reads this
      requires |elements| > 0
      ensures slot < |elements|
      ensures RemEuclid(slot - currentIndex, |elements|) == RemEuclid(index, |elements|)
      ensures elements[slot] == Contents()[RemEuclid(index, |elements|)]
    {
      var n := |elements|;
      var slot := RemEuclid(currentIndex + index, n);
      assert RemEuclid(slot - currentIndex, n) == RemEuclid(index, n) by {
        SlotDistance(currentIndex, index, n);
      }
      assert elements[slot] == Contents()[RemEuclid(index, n)] by {
        ViewAt(elements, currentIndex, index);
      }
      slot
    }

    /** `buffer[index]` (the `Index` impl). */
    function Get(index: int): (x: T)
      reads this
      requires |elements| > 0
      ensures x == Contents()[RemEuclid(index, |elements|)]
    {
      elements[GetArrayIndex(index)]
    }

    /** `buffer[index] = value` (through the `IndexMut` impl): only the slot of
        `index` is written, and only logical position RemEuclid(index, N)
        changes. */
    method Set(index: int, value: T)
      requires |elements| > 0
      modifies this
      ensures elements == old(elements[GetArrayIndex(index) := value])
      ensures currentIndex == old(currentIndex)
      ensures Contents() == old(Contents()[RemEuclid(index, |elements|) := value])
      ensures Get(index) == value
    {
      var slot := GetArrayIndex(index);
      ViewUpdate(elements, currentIndex, index, value);
      elements := elements[slot := value];
    }

    /** `rotate(num)`: only the offset moves; the logical view turns left by
        RemEuclid(num, N), so the old logical index `num` becomes index 0. */
    method Rotate(num: int)
      modifies this
      ensures elements == old(elements)
      ensures currentIndex == old(currentIndex) + num
      ensures |elements| > 0 ==> Contents() == RotateLeft(old(Contents()), RemEuclid(num, |elements|))
      ensures |elements| > 0 ==> Get(0) == old(Get(num))
    {
      if |elements| > 0 {
        ViewRotate(elements, currentIndex, num);
        ViewAt(elements, currentIndex, num);
        assert currentIndex + num == currentIndex + num + 0;
      }
      currentIndex := currentIndex + num;
    }

    /** `resize(new_size, default_value)`: linearise the logical order with
        rotate_left, truncate or pad, and reset the offset. The call to
        get_array_index(0) panics on an empty buffer. */
    method Resize(newSize: nat, defaultValue: T)
      requires |elements| > 0
      modifies this
      ensures elements == Resized(old(Contents()), newSize, defaultValue)
      ensures currentIndex == 0
      ensures Contents() == elements
      ensures newSize > 0 ==> Get(0) == old(Get(0))
    {
      ghost var before := Contents();
      ghost var front := Get(0);
      var index := GetArrayIndex(0);
      ViewIsRotateLeft(elements, currentIndex);
      elements := RotateLeft(elements, index);
      elements := Resized(elements, newSize, defaultValue);
      currentIndex := 0;
      ViewUnrotated(elements);
      if newSize > 0 {
        RemEuclidOfSlot(0, |elements|);
        assert before[0] == front by {
          RemEuclidOfSlot(0, |before|);
        }
      }
    }

    /** `iter()`: a fresh traversal starting at logical index 0. */
    method Iter() returns (it: RingBufferIter<T>)
      ensures fresh(it) && it.ringBuffer == this && it.index == 0
    {
      it := new RingBufferIter(this);
    }

    /** `iter_mut()`: a fresh mutable traversal starting at logical index 0. */
    method IterMut() returns (it: RingBufferIterMut<T>)
      ensures fresh(it) && it.ringBuffer == this && it.index == 0
    {
      it := new RingBufferIterMut(this);
    }
  }

  /** `RingBufferIter`: walks logical indices 0 .. len-1 of the buffer. */
  class RingBufferIter<T> {
    const ringBuffer: RingBuffer<T>
    var index: nat

    constructor (ringBuffer: RingBuffer<T>)
      ensures this.ringBuffer == ringBuffer && index == 0
    {
      this.ringBuffer := ringBuffer;
      index := 0;
    }

    /** Yields `buffer[index]` and advances, or reports the end. */
    method Next() returns (item: Option<T>)
      modifies this
      ensures old(index) < ringBuffer.Len() ==>
        item == Some(ringBuffer.Contents()[old(index)]) && index == old(index) + 1
      ensures old(index) >= ringBuffer.Len() ==> item == None && index == old(index)
    {
      if index >= |ringBuffer.elements| {
        return None;
      }
      var ret := ringBuffer.Get(index);
      RemEuclidOfSlot(index, |ringBuffer.elements|);
      index := index + 1;
      return Some(ret);
    }
  }

  /** `RingBufferIterMut`: walks logical indices 0 .. len-1, lending each
      slot for writing. The `&mut T` it yields is modelled by the physical
      slot the reference points to; the caller writes through that slot. */
  class RingBufferIterMut<T> {
    const ringBuffer: RingBuffer<T>
    var index: nat

    constructor (ringBuffer: RingBuffer<T>)
      ensures this.ringBuffer == ringBuffer && index == 0
    {
      this.ringBuffer := ringBuffer;
      index := 0;
    }

    /** Lends the slot of logical index `index` and advances, or reports the end. */
    method Next() returns (slot: Option<nat>)
      modifies this
      ensures old(index) < ringBuffer.Len() ==>
        slot == Some(ringBuffer.GetArrayIndex(old(index))) && index == old(index) + 1
      ensures old(index) >= ringBuffer.Len() ==> slot == None && index == old(index)
    {
      if index >= |ringBuffer.elements| {
        return None;
      }
      var arrayIndex := ringBuffer.GetArrayIndex(index);
      index := index + 1;
      return Some(arrayIndex);
    }
  }

  /** Indexing is periodic in the length, and index -1 is the last element. */
  lemma IndexWraps<T>(buffer: RingBuffer<T>, i: int)
    requires buffer.Len() > 0
    ensures buffer.Get(i + buffer.Len()) == buffer.Get(i)
    ensures buffer.Get(i - buffer.Len()) == buffer.Get(i)
    ensures buffer.Get(-1) == buffer.Get(buffer.Len() - 1)
  {
    var n := buffer.Len();
    RemEuclidPeriodic(i, 1, n);
    RemEuclidPeriodic(i, -1, n);
    RemEuclidPeriodic(-1, 1, n);
    assert -1 + n * 1 == n - 1;
  }

  /** Drains `buffer.iter()`: exactly len() items, the k-th being buffer[k]. */
  method Collect<T>(buffer: RingBuffer<T>) returns (items: seq<T>)
    ensures items == buffer.Contents()
    ensures |items| == buffer.Len()
    ensures forall k :: 0 <= k < |items| ==> items[k] == buffer.Get(k)
  {
    var it := buffer.Iter();
    items := [];
    while true
      invariant it.ringBuffer == buffer
      invariant it.index == |items| <= |buffer.elements|
      invariant items == buffer.Contents()[..|items|]
      decreases |buffer.elements| - it.index
    {
      var item := it.Next();
      if item.None? {
        break;
      }
      items := items + [item.value];
    }
    forall k | 0 <= k < |items|
      ensures items[k] == buffer.Get(k)
    {
      RemEuclidOfSlot(k, |items|);
    }
  }

  /** Drains `buffer.iter_mut()` and records the slot behind each reference:
      every slot is lent exactly once, in logical order. */
  method IterMutSlots<T>(buffer: RingBuffer<T>) returns (slots: seq<nat>)
    ensures |slots| == buffer.Len()
    ensures forall k :: 0 <= k < |slots| ==>
      slots[k] < |slots| && RemEuclid(slots[k] - buffer.currentIndex, |slots|) == k
    ensures forall k :: 0 <= k < |slots| ==> buffer.elements[slots[k]] == buffer.Contents()[k]
    ensures forall k, m :: 0 <= k < m < |slots| ==> slots[k] != slots[m]
    ensures forall p :: 0 <= p < |slots| ==> p in slots
  {
    var it := buffer.IterMut();
    slots := [];
    while true
      invariant it.ringBuffer == buffer
      invariant it.index == |slots| <= |buffer.elements|
      invariant forall k :: 0 <= k < |slots| ==> slots[k] == RemEuclid(buffer.currentIndex + k, |buffer.elements|)
      decreases |buffer.elements| - it.index
    {
      var slot := it.Next();
      if slot.None? {
        break;
      }
      slots := slots + [slot.value];
    }
    var n := |slots|;
    forall k | 0 <= k < n
      ensures RemEuclid(slots[k] - buffer.currentIndex, n) == k
      ensures buffer.elements[slots[k]] == buffer.Contents()[k]
    {
      SlotMapInverse(buffer.currentIndex, k, 0, n);
      RemEuclidOfSlot(k, n);
      ViewAt(buffer.elements, buffer.currentIndex, k);
    }
    forall k, m | 0 <= k < m < n
      ensures slots[k] != slots[m]
    {
      SlotsDistinct(buffer.currentIndex, k, m, n);
    }
    forall p | 0 <= p < n
      ensures p in slots
    {
      var k := RemEuclid(p - buffer.currentIndex, n);
      SlotMapInverse(buffer.currentIndex, 0, p, n);
      assert slots[k] == p;
    }
  }

  /** `buffer.iter_mut().zip(values).for_each(|(a, b)| *a = *b)`: the first
      min(len, |values|) logical positions take the values in order, the rest
      keep their contents, and the offset is untouched. */
  method AssignZipped<T>(buffer: RingBuffer<T>, values: seq<T>)
    modifies buffer
    ensures buffer.currentIndex == old(buffer.currentIndex)
    ensures |buffer.elements| == old(|buffer.elements|)
    ensures var m := if |values| < |buffer.elements| then |values| else |buffer.elements|;
            buffer.Contents() == values[..m] + old(buffer.Contents())[m..]
  {
    ghost var before := buffer.Contents();
    var it := buffer.IterMut();
    var k := 0;
    while true
      invariant it.ringBuffer == buffer
      invariant buffer.currentIndex == old(buffer.currentIndex)
      invariant |buffer.elements| == |before|
      invariant k == it.index <= |before| && k <= |values|
      invariant buffer.Contents() == values[..k] + before[k..]
      decreases |before| - k
    {
      var slot := it.Next();
      if slot.None? || k >= |values| {
        break;
      }
      ViewUpdate(buffer.elements, buffer.currentIndex, k, values[k]);
      RemEuclidOfSlot(k, |before|);
      PrefixStep(values, before, k);
      buffer.elements := buffer.elements[slot.value := values[k]];
      k := k + 1;
    }
  }

  /** One step of the zipped assignment: position k takes values[k]. */
  lemma PrefixStep<T>(values: seq<T>, rest: seq<T>, k: nat)
    requires k < |values| && k < |rest|
    ensures (values[..k] + rest[k..])[k := values[k]] == values[..k + 1] + rest[k + 1..]
  {
  }
}
