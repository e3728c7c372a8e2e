/** The deferred-interrupt bridge for the two push buttons
    (components/Buttons/buttons.c).

    The interrupt handlers only put a button id into a queue of depth 10;
    the button task takes ids out in FIFO order and hands each to the
    registered callback. The callback pointer is modelled by whether one is
    registered and by the log of ids it has been called with. */
module Buttons {
  import opened Wrappers
  import opened Board
  import opened Fifo

  /** Depth of the interrupt queue created by `buttons_init`. */
  const IsrQueueDepth: nat := 10

  /** `Button_err_t`. */
  datatype ButtonErr = ButtonOk | ButtonErrInvalid

  class ButtonBridge {
    /** `callback_private != NULL`. */
    var callbackSet: bool
    /** `isr_handler_queue`. */
    const isrQueue: Queue<nat>
    /** The ids the callback has been called with, oldest first. */
    var calls: seq<nat>

    ghost predicate Valid()
      reads this, isrQueue
    {
      isrQueue.capacity == IsrQueueDepth && isrQueue.Valid()
    }

    constructor (callbackSet: bool)
      ensures Valid() && fresh(isrQueue)
      ensures this.callbackSet == callbackSet && isrQueue.items == [] && calls == []
    {
      this.callbackSet := callbackSet;
      isrQueue := new Queue(IsrQueueDepth);
      calls := [];
    }

    /** `gpio_isr_change_button_handler`: enqueue CHANGE_BUTTON without
        blocking; on a full queue the event is lost. */
    method ChangeButtonIsr()
      requires Valid()
      modifies isrQueue
      ensures Valid()
      ensures isrQueue.items ==
                if |old(isrQueue.items)| < IsrQueueDepth
                then old(isrQueue.items) + [ChangeButton] else old(isrQueue.items)
      ensures callbackSet == old(callbackSet) && calls == old(calls)
    {
      var _ := isrQueue.Send(ChangeButton);
    }

    /** `gpio_isr_off_button_handler`: the same for OFF_BUTTON. */
    method OffButtonIsr()
      requires Valid()
      modifies isrQueue
      ensures Valid()
      ensures isrQueue.items ==
                if |old(isrQueue.items)| < IsrQueueDepth
                then old(isrQueue.items) + [OffButton] else old(isrQueue.items)
      ensures callbackSet == old(callbackSet) && calls == old(calls)
    {
      var _ := isrQueue.Send(OffButton);
    }

    /** One iteration of the `vButtonISRTask` loop. On an empty queue the
        task stays blocked (`None`, nothing changes). Otherwise the oldest id
        is removed and, when a callback is registered, passed to it once. */
    method TaskStep() returns (received: Option<nat>)
      requires Valid()
      modifies this`calls, isrQueue
      ensures Valid()
      ensures old(isrQueue.items) == [] ==> received == None && isrQueue.items == [] && calls == old(calls)
      ensures old(isrQueue.items) != [] ==>
                received == Some(old(isrQueue.items)[0]) &&
                isrQueue.items == old(isrQueue.items)[1..] &&
                calls == old(calls) + (if callbackSet then [old(isrQueue.items)[0]] else [])
    {
      received := isrQueue.Receive();
      if received.Some? {
        if callbackSet {
          calls := calls + [received.value];
        }
      }
    }

    /** The `vButtonISRTask` loop run until the queue is empty, where the
        real task blocks: every queued id is consumed, and the callback
        receives all of them exactly once in FIFO order, or none when no
        callback is registered. */
    method ButtonIsrTask()
      requires Valid()
      modifies this`calls, isrQueue
      ensures Valid()
      ensures isrQueue.items == []
      ensures calls == old(calls) + (if callbackSet then old(isrQueue.items) else [])
    {
      ghost var pending := isrQueue.items;
      ghost var done := 0;
      while isrQueue.items != []
        invariant Valid()
        invariant 0 <= done <= |pending|
        invariant isrQueue.items == pending[done..]
        invariant calls == old(calls) + (if callbackSet then pending[..done] else [])
        decreases |isrQueue.items|
      {
        var received := TaskStep();
        assert pending[..done + 1] == pending[..done] + [pending[done]];
        done := done + 1;
      }
      assert pending[..done] == pending;
    }
  }

  /** `buttons_init`: store the callback, configure both pins, create the
      queue; BUTTON_OK exactly when all three configuration calls succeed. */
  method ButtonsInit(callbackSet: bool, errInit: EspErr, errIntrChange: EspErr, errIntrOff: EspErr)
    returns (bridge: ButtonBridge, r: ButtonErr)
    ensures fresh(bridge) && fresh(bridge.isrQueue) && bridge.Valid()
    ensures bridge.callbackSet == callbackSet && bridge.isrQueue.items == [] && bridge.calls == []
    ensures r == ButtonOk <==> errInit == Ok && errIntrChange == Ok && errIntrOff == Ok
  {
    bridge := new ButtonBridge(callbackSet);
    r := if errInit == Ok && errIntrChange == Ok && errIntrOff == Ok then ButtonOk else ButtonErrInvalid;
  }
}
