/** The unit tests of the ring buffer, replayed against the model: each
    scenario builds a buffer through the public operations and returns what
    the test observes. */
module RingBufferScenarios {
  import opened RingAlgebra
  import opened RingBuffers

  /** A zero-size buffer is empty. */
  method EmptyBuffer() returns (len: nat, empty: bool)
    ensures len == 0 && empty
  {
    var buffer := new RingBuffer(0, 5);
    len := buffer.Len();
    empty := buffer.IsEmpty();
  }

  /** One slot: read, write, iterate, assign through iter_mut. */
  method SingleElement() returns (len: nat, empty: bool, first: int, written: int, items: seq<int>, zipped: seq<int>)
    ensures len == 1 && !empty && first == 5 && written == 3
    ensures items == [3] && zipped == [7]
  {
    var buffer := new RingBuffer(1, 5);
    len := buffer.Len();
    empty := buffer.IsEmpty();
    first := buffer.Get(0);
    buffer.Set(0, 3);
    written := buffer.Get(0);
    items := Collect(buffer);
    AssignZipped(buffer, [7]);
    zipped := Collect(buffer);
  }

  /** Three slots filled through iter_mut, then read back. */
  method ThreeElements() returns (len: nat, zero0: int, zero2: int, items: seq<int>, first: int, last: int)
    ensures len == 3 && zero0 == 0 && zero2 == 0
    ensures items == [1, 2, 3] && first == 1 && last == 3
  {
    var buffer := new RingBuffer(3, 0);
    len := buffer.Len();
    zero0 := buffer.Get(0);
    zero2 := buffer.Get(2);
    AssignZipped(buffer, [1, 2, 3]);
    items := Collect(buffer);
    first := buffer.Get(0);
    last := buffer.Get(2);
  }

  /** Rotating by 2 shifts the logical view; writes after the rotation land
      in logical order. */
  method RotateForwards() returns (front: int, back: int, rotated: seq<int>, minusTwo: int, reassigned: seq<int>)
    ensures front == 3 && back == 2 && rotated == [3, 4, 5, 1, 2] && minusTwo == 1
    ensures reassigned == [5, 6, 7, 8, 9]
  {
    var buffer := new RingBuffer(5, 0);
    assert buffer.Contents() == [0, 0, 0, 0, 0];
    AssignZipped(buffer, [1, 2, 3, 4, 5]);
    assert buffer.Contents() == [1, 2, 3, 4, 5];
    buffer.Rotate(2);
    assert RemEuclid(2, 5) == 2;
    assert buffer.Contents() == RotateLeft([1, 2, 3, 4, 5], 2) == [3, 4, 5, 1, 2];
    front := buffer.Get(0);
    back := buffer.Get(4);
    rotated := Collect(buffer);
    minusTwo := buffer.Get(-2);
    AssignZipped(buffer, [5, 6, 7, 8, 9]);
    reassigned := Collect(buffer);
  }

  /** Builds new(3, 0), observes it as [0, 0, 0], and writes 0, 2, 5 at
      indices 0, 1, 2. */
  method ZeroTwoFive() returns (buffer: RingBuffer<int>, initial: seq<int>)
    ensures fresh(buffer)
    ensures initial == [0, 0, 0]
    ensures buffer.elements == [0, 2, 5] && buffer.currentIndex == 0
    ensures buffer.Contents() == [0, 2, 5]
  {
    buffer := new RingBuffer(3, 0);
    assert buffer.elements == [0, 0, 0];
    initial := Collect(buffer);
    buffer.Set(0, 0);
    assert buffer.elements == [0, 0, 0];
    buffer.Set(1, 2);
    assert buffer.elements == [0, 2, 0];
    buffer.Set(2, 5);
    assert buffer.elements == [0, 2, 5];
    ViewUnrotated(buffer.elements);
  }

  /** Rotating by -1 brings the last element to the front. */
  method RotateBackwards() returns (initial: seq<int>, rotated: seq<int>, minusOne: int, reassigned: seq<int>)
    ensures initial == [0, 0, 0]
    ensures rotated == [5, 0, 2] && minusOne == 2 && reassigned == [5, 6, 7]
  {
    var buffer;
    buffer, initial := ZeroTwoFive();
    buffer.Rotate(-1);
    assert RemEuclid(-1, 3) == 2;
    assert buffer.Contents() == RotateLeft([0, 2, 5], 2) == [5, 0, 2];
    rotated := Collect(buffer);
    minusOne := buffer.Get(-1);
    AssignZipped(buffer, [5, 6, 7]);
    reassigned := Collect(buffer);
  }

  /** Growing a rotated buffer keeps its logical order and pads at the end. */
  method ResizeBigger() returns (initial: seq<int>, items: seq<int>)
    ensures initial == [0, 0, 0]
    ensures items == [5, 0, 2, 7, 7]
  {
    var buffer;
    buffer, initial := ZeroTwoFive();
    buffer.Rotate(-1);
    assert RemEuclid(-1, 3) == 2;
    assert buffer.Contents() == RotateLeft([0, 2, 5], 2) == [5, 0, 2];
    buffer.Resize(5, 7);
    assert buffer.Contents() == Resized([5, 0, 2], 5, 7) == [5, 0, 2, 7, 7];
    items := Collect(buffer);
  }

  /** Shrinking a rotated buffer keeps the logical prefix. */
  method ResizeSmaller() returns (initial: seq<int>, items: seq<int>)
    ensures initial == [0, 0, 0]
    ensures items == [2, 5]
  {
    var buffer;
    buffer, initial := ZeroTwoFive();
    buffer.Rotate(1);
    assert RemEuclid(1, 3) == 1;
    assert buffer.Contents() == RotateLeft([0, 2, 5], 1) == [2, 5, 0];
    buffer.Resize(2, 7);
    assert buffer.Contents() == Resized([2, 5, 0], 2, 7) == [2, 5];
    items := Collect(buffer);
  }
}
