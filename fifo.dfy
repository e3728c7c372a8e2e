/** The FreeRTOS queues the core uses (`xQueueCreate`, `xQueueSend` with a
    zero wait, `xQueueSendFromISR`, `xQueueReceive`), modelled sequentially:
    a bounded FIFO whose sends never block and drop the item when full. */
module Fifo {
  import opened Wrappers

  class Queue<T> {
    /** Depth given to `xQueueCreate`. */
    const capacity: nat
    /** Queued items, oldest first. */
    var items: seq<T>

    ghost predicate Valid()
      reads this
    {
      |items| <= capacity
    }

    constructor (capacity: nat)
      ensures Valid() && this.capacity == capacity && items == []
    {
      this.capacity := capacity;
      items := [];
    }

    /** A send that does not wait: the item is appended when there is room
        and dropped otherwise; the queue contents are then unchanged. */
    method Send(x: T) returns (sent: bool)
      requires Valid()
      modifies this
      ensures Valid()
      ensures sent <==> |old(items)| < capacity
      ensures items == if sent then old(items) + [x] else old(items)
    {
      sent := |items| < capacity;
      if sent {
        items := items + [x];
      }
    }

    /** A receive. `None` stands for "the caller stays blocked": the queue
        is empty and nothing changes. Otherwise the oldest item is removed
        and returned. */
    method Receive() returns (x: Option<T>)
      requires Valid()
      modifies this
      ensures Valid()
      ensures old(items) == [] ==> x == None && items == []
      ensures old(items) != [] ==> x == Some(old(items)[0]) && items == old(items)[1..]
    {
      if items == [] {
        x := None;
      } else {
        x := Some(items[0]);
        items := items[1..];
      }
    }
  }
}
