/** The device control state and its callbacks (components/Events/events.c,
    components/Events/include/events.h). */
module Events {
  import opened Board
  import opened Fifo

  /** `State_t`: the operating mode. */
  datatype State = Performance | Configuration | Idle

  /** `eMQTT_err`, `eMQTT_topic` and `mqtt_message_t` from communications.h. */
  datatype MqttErr = MqttOk | MqttErrInvalid
  datatype MqttTopic = MqttOn | MqttSleep | MqttConfig | MqttDelay
  datatype MqttMessage = MqttMessage(status: MqttErr, topic: MqttTopic, data: string)

  /** Depth of the inbound message queue created by `events_init`. */
  const MqttQueueDepth: nat := 10

  /** What `get_control_variables` lets a caller see: a copy it cannot write
      back through. */
  datatype ControlView = ControlView(wifiConnected: int, currentState: State, pendingMqtt: seq<MqttMessage>)

  /** The mode after `callback_buttons(ioNum)` in mode `s`. */
  function ButtonTransition(s: State, ioNum: nat): (t: State)
    ensures ioNum == OffButton ==> t == Idle
    ensures ioNum != OffButton ==> t != Idle && t != s
    ensures ioNum != OffButton && s == Idle ==> t == Performance
  {
    if ioNum == OffButton then Idle
    else if s == Performance then Configuration
    else if s == Configuration then Performance
    else Performance
  }

  /** The mode after a sequence of button callbacks, oldest first. */
  function ApplyButtons(s: State, ids: seq<nat>): (t: State)
  {
    if ids == [] then s else ButtonTransition(ApplyButtons(s, ids[..|ids| - 1]), ids[|ids| - 1])
  }

  /** Pressing OFF twice is the same as pressing it once. */
  lemma OffButtonIdempotent(s: State)
    ensures ButtonTransition(ButtonTransition(s, OffButton), OffButton) == ButtonTransition(s, OffButton)
  {
  }

  /** From an active mode, two non-OFF presses come back to where they began. */
  lemma ToggleTwiceRestores(s: State, a: nat, b: nat)
    requires s != Idle && a != OffButton && b != OffButton
    ensures ButtonTransition(ButtonTransition(s, a), b) == s
  {
  }

  /** After any non-empty run of button callbacks the device is idle exactly
      when the last button was OFF. */
  lemma ApplyButtonsIdle(s: State, ids: seq<nat>)
    requires ids != []
    ensures ApplyButtons(s, ids) == Idle <==> ids[|ids| - 1] == OffButton
  {
  }

  /** Button callbacks starting from an active mode with no OFF among them
      alternate between the two active modes: an even number returns to the
      start. */
  lemma {:induction false} ApplyTogglesParity(s: State, ids: seq<nat>)
    requires s != Idle
    requires forall i :: 0 <= i < |ids| ==> ids[i] != OffButton
    ensures ApplyButtons(s, ids) != Idle
    ensures ApplyButtons(s, ids) == s <==> |ids| % 2 == 0
  {
    if ids != [] {
      ApplyTogglesParity(s, ids[..|ids| - 1]);
    }
  }

  /** `gControlVariables`. */
  class ControlState {
    var wifiConnected: int
    var currentState: State
    /** The handle is stored once, by `events_init`. */
    const queueEventMqtt: Queue<MqttMessage>

    ghost predicate Valid()
      reads this, queueEventMqtt
    {
      (wifiConnected == 0 || wifiConnected == 1) &&
      queueEventMqtt.capacity == MqttQueueDepth && queueEventMqtt.Valid()
    }

    /** `events_init`. */
    constructor ()
      ensures Valid() && fresh(queueEventMqtt)
      ensures wifiConnected == 0 && currentState == Idle && queueEventMqtt.items == []
    {
      wifiConnected := 0;
      currentState := Idle;
      queueEventMqtt := new Queue(MqttQueueDepth);
    }

    /** `callback_buttons`: OFF forces idle, any other button toggles. */
    method CallbackButtons(ioNum: nat)
      requires Valid()
      modifies this
      ensures Valid()
      ensures currentState == ButtonTransition(old(currentState), ioNum)
      ensures wifiConnected == old(wifiConnected) && unchanged(queueEventMqtt)
    {
      if ioNum == OffButton {
        currentState := Idle;
      } else {
        if currentState == Performance {
          currentState := Configuration;
        } else if currentState == Configuration {
          currentState := Performance;
        } else {
          currentState := Performance;
        }
      }
    }

    /** `callback_init_wifi`: the flag becomes 1 for an argument of 1 and 0
        for anything else. */
    method CallbackInitWifi(conectado: int)
      requires Valid()
      modifies this
      ensures Valid()
      ensures wifiConnected == 1 <==> conectado == 1
      ensures currentState == old(currentState) && unchanged(queueEventMqtt)
    {
      if conectado == 1 {
        wifiConnected := 1;
      } else {
        wifiConnected := 0;
      }
    }

    /** `callback_event_mqtt`: a non-blocking send; the message is dropped
        when the queue already holds ten. */
    method CallbackEventMqtt(message: MqttMessage)
      requires Valid()
      modifies queueEventMqtt
      ensures Valid()
      ensures queueEventMqtt.items ==
                if |old(queueEventMqtt.items)| < MqttQueueDepth
                then old(queueEventMqtt.items) + [message] else old(queueEventMqtt.items)
      ensures currentState == old(currentState) && wifiConnected == old(wifiConnected)
    {
      var _ := queueEventMqtt.Send(message);
    }

    /** `get_control_variables`: read-only access to the control state. */
    function GetControlVariables(): (v: ControlView)
      requires Valid()
      reads this, queueEventMqtt
      ensures v.wifiConnected == 0 || v.wifiConnected == 1
      ensures |v.pendingMqtt| <= MqttQueueDepth
      ensures v.currentState == currentState && v.wifiConnected == wifiConnected
      ensures v.pendingMqtt == queueEventMqtt.items
    {
      ControlView(wifiConnected, currentState, queueEventMqtt.items)
    }
  }
}
