/**
 * The producer/consumer demo's bounded buffer: a FIFO of ints with a fixed
 * maximum size and no close state.  Each condition-variable wait becomes a
 * precondition; locking and printing are not modelled.
 */
module ProducerConsumer {

  class BoundedBuffer {
    /** buffer: front is the oldest value. */
    var buffer: seq<int>
    /** max_size */
    const maxSize: nat
    /** Every value produced, and every value consumed, in call order. */
    ghost var produced: seq<int>
    ghost var consumed: seq<int>

    /** Bounded, and what came out followed by what is still buffered is exactly what went in. */
    ghost predicate Valid()
      reads this
    {
      |buffer| <= maxSize && consumed + buffer == produced
    }

    constructor (size: nat)
      ensures Valid() && maxSize == size
      ensures buffer == [] && produced == [] && consumed == []
    {
      buffer := [];
      maxSize := size;
      produced, consumed := [], [];
    }

    /** Waits until the buffer is not full, then appends value at the back. */
    method Produce(value: int)
      requires Valid()
      requires |buffer| < maxSize
      modifies this
      ensures Valid()
      ensures buffer == old(buffer) + [value] && |buffer| == old(|buffer|) + 1
      ensures produced == old(produced) + [value] && consumed == old(consumed)
    {
      buffer := buffer + [value];
      produced := produced + [value];
    }

    /** Waits until the buffer is not empty, then removes and returns the front value. */
    method Consume() returns (value: int)
      requires Valid()
      requires buffer != []
      modifies this
      ensures Valid()
      ensures value == old(buffer)[0] && buffer == old(buffer)[1..] && |buffer| == old(|buffer|) - 1
      ensures consumed == old(consumed) + [value] && produced == old(produced)
      ensures consumed <= produced
    {
      value := buffer[0];
      buffer := buffer[1..];
      consumed := consumed + [value];
      assert consumed + buffer == old(consumed) + old(buffer);
    }

    /** The number of buffered values: never above max_size, and what was produced but not yet consumed. */
    function Size(): (n: nat)
      reads this
      requires Valid()
      ensures n <= maxSize && n + |consumed| == |produced|
    {
      |buffer|
    }
  }
}
