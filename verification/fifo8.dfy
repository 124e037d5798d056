/**
 Bounded byte FIFO, as far as the G233 SPI controller uses it: the device
 creates two of them with a fixed capacity and never pushes or pops.
 */
module Fifo8 {

  /** A byte queue: `data` holds the queued bytes, oldest first. */
  datatype Fifo = Fifo(data: seq<bv8>, capacity: nat) {

    /** The queue never holds more bytes than its capacity. */
    predicate Valid() {
      |data| <= capacity
    }

    predicate IsEmpty() {
      |data| == 0
    }

    predicate IsFull() {
      |data| == capacity
    }
  }

  /** A freshly created FIFO: empty, with the requested capacity. */
  function Create(capacity: nat): (f: Fifo)
    ensures f.Valid()
    ensures f.IsEmpty()
    ensures f.capacity == capacity
    ensures capacity > 0 ==> !f.IsFull()
  {
    Fifo([], capacity)
  }
}
