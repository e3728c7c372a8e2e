/** Remote message routing and telemetry publication
    (components/Communications/communications.c, the `MQTT_EVENT_DATA`
    branch of `mqtt_event_handler` and `publish_data`).

    The MQTT client appears only as the ordered log of what it was asked to
    publish. Payloads are records rather than JSON text, and the result of
    `json_scanf(data, ..., "{delay: %d}", &delay_receive)` is an
    `Option<int>`: `Some(v)` when it reported at least one field. */
module Communications {
  import opened Wrappers
  import opened Board
  import opened Events

  /** Topics this device subscribes to. */
  const TopicOn := "ESP32/1/config/ON"
  const TopicConfig := "ESP32/1/config/CONFIG"
  const TopicSleep := "ESP32/1/config/SLEEP"
  const TopicDelay := "ESP32/1/config/delay"

  /** Topics this device publishes to. */
  const TopicError := "ESP32/1/error"
  const TopicTemperature := "ESP32/1/telemetry/temperature"
  const TopicHumidity := "ESP32/1/telemetry/humidicity"
  const TopicLight := "ESP32/1/telemetry/light"

  /** Reasons carried by error publications. */
  const ReasonIncorrectMode := "INCORRECT MODE"
  const ReasonDelayFailed := "CONFIGURATION DELAY FAILED"

  /** Size of the local buffer the topic is copied into. */
  const TopicBufferSize: nat := 40

  /** The JSON objects the device publishes, as records. */
  datatype Payload =
    | ErrorReport(id: int, error: string)
    | Telemetry(id: int, field: string, value: int, unit: string)

  datatype Message = Message(topic: string, payload: Payload)

  /** `data_t`. */
  datatype Data = Data(humicity: uint8, temperature: uint8, light: uint8)

  /** What handling one inbound message does: the mode afterwards and the
      messages published, in order. */
  datatype Reaction = Reaction(state: State, published: seq<Message>)

  /** The report both delay rejections publish: `{id: 1, error: <reason>}`
      on `ESP32/1/error`. */
  function ErrorMessage(reason: string): (m: Message)
  {
    Message(TopicError, ErrorReport(DeviceId, reason))
  }

  /** The effect of an `MQTT_EVENT_DATA` event on topic `topic` in mode `s`,
      where `delay` is what the payload parse yields. */
  function OnData(s: State, topic: string, delay: Option<int>): (r: Reaction)
    ensures topic == TopicOn ==> r == Reaction(Performance, [])
    ensures topic == TopicConfig ==> r == Reaction(Configuration, [])
    ensures topic == TopicSleep ==> r == Reaction(Idle, [])
    ensures topic !in {TopicOn, TopicConfig, TopicSleep, TopicDelay} ==> r == Reaction(s, [])
    ensures topic == TopicDelay ==> r.state == s
    ensures topic == TopicDelay && s != Configuration ==> r.published == [ErrorMessage(ReasonIncorrectMode)]
    ensures topic == TopicDelay && s == Configuration ==>
              (r.published == [] <==> delay.Some? && delay.value >= MinDelay) &&
              (r.published != [] ==> r.published == [ErrorMessage(ReasonDelayFailed)])
  {
    if topic == TopicOn then Reaction(Performance, [])
    else if topic == TopicConfig then Reaction(Configuration, [])
    else if topic == TopicSleep then Reaction(Idle, [])
    else if topic == TopicDelay then
      if s == Configuration then
        if delay.Some? && delay.value >= MinDelay then Reaction(s, [])
        else Reaction(s, [ErrorMessage(ReasonDelayFailed)])
      else Reaction(s, [ErrorMessage(ReasonIncorrectMode)])
    else Reaction(s, [])
  }

  /** The three telemetry messages `publish_data` emits, in order. */
  function TelemetryMessages(data: Data): (ms: seq<Message>)
    ensures |ms| == 3
    ensures forall i :: 0 <= i < 3 ==> ms[i].payload.Telemetry? && ms[i].payload.id == DeviceId
    ensures ms[0].topic == TopicTemperature && ms[0].payload.value == data.temperature && ms[0].payload.unit == "Celsius"
    ensures ms[1].topic == TopicHumidity && ms[1].payload.value == data.humicity && ms[1].payload.unit == "percentage"
    ensures ms[2].topic == TopicLight && ms[2].payload.value == data.light && ms[2].payload.unit == "bool"
  {
    [Message(TopicTemperature, Telemetry(DeviceId, "temperature", data.temperature, "Celsius")),
     Message(TopicHumidity, Telemetry(DeviceId, "humidicity", data.humicity, "percentage")),
     Message(TopicLight, Telemetry(DeviceId, "light", data.light, "bool"))]
  }

  /** Routing decides the mode idempotently: handling the same message a
      second time leaves the mode where the first left it. */
  lemma OnDataStateIdempotent(s: State, topic: string, delay: Option<int>)
    ensures OnData(OnData(s, topic, delay).state, topic, delay).state == OnData(s, topic, delay).state
  {
  }

  /** At most one message is published per event, only for the delay topic,
      and it is always an error report from this device on the error topic. */
  lemma OnDataPublishesOnlyErrors(s: State, topic: string, delay: Option<int>)
    ensures |OnData(s, topic, delay).published| <= 1
    ensures OnData(s, topic, delay).published != [] ==>
              topic == TopicDelay &&
              OnData(s, topic, delay).published[0].topic == TopicError &&
              OnData(s, topic, delay).published[0].payload.ErrorReport? &&
              OnData(s, topic, delay).published[0].payload.id == DeviceId
  {
  }

  /** A delay message is accepted (nothing published) exactly when the
      device is in configuration mode and the payload holds a value of at
      least `MinDelay`; a failed parse and a value below the minimum give
      the same report. */
  lemma DelayAcceptedIff(s: State, delay: Option<int>)
    ensures OnData(s, TopicDelay, delay).published == [] <==>
              s == Configuration && delay.Some? && delay.value >= MinDelay
    ensures s == Configuration ==>
              OnData(s, TopicDelay, None) == OnData(s, TopicDelay, Some(MinDelay - 1))
  {
  }

  /** Worked cases: a delay of 1500 ms in configuration mode is reported and
      one of 3000 ms is not; `config/ON` wakes an idle device; `config/SLEEP`
      on an idle device is a silent no-op. */
  lemma RoutingExamples()
    ensures OnData(Configuration, TopicDelay, Some(1500)) == Reaction(Configuration, [ErrorMessage(ReasonDelayFailed)])
    ensures OnData(Configuration, TopicDelay, Some(3000)) == Reaction(Configuration, [])
    ensures OnData(Performance, TopicDelay, Some(3000)) == Reaction(Performance, [ErrorMessage(ReasonIncorrectMode)])
    ensures OnData(Idle, TopicOn, None) == Reaction(Performance, [])
    ensures OnData(Idle, TopicSleep, None) == Reaction(Idle, [])
  {
  }

  /** The client's publication log. */
  class Client {
    var published: seq<Message>

    constructor ()
      ensures published == []
    {
      published := [];
    }

    /** `esp_mqtt_client_publish`. */
    method Publish(topic: string, payload: Payload)
      modifies this
      ensures published == old(published) + [Message(topic, payload)]
    {
      published := published + [Message(topic, payload)];
    }
  }

  /** The `MQTT_EVENT_DATA` branch of `mqtt_event_handler`: compare the topic
      with the four subscribed ones, change the mode or try the delay
      configuration, and publish an error for each rejection. */
  method HandleData(control: ControlState, client: Client, topic: string, delay: Option<int>)
    requires control.Valid()
    requires |topic| < TopicBufferSize
    modifies control`currentState, client
    ensures control.Valid()
    ensures control.currentState == OnData(old(control.currentState), topic, delay).state
    ensures client.published == old(client.published) + OnData(old(control.currentState), topic, delay).published
  {
    if topic == TopicOn {
      control.currentState := Performance;
    } else if topic == TopicConfig {
      control.currentState := Configuration;
    } else if topic == TopicSleep {
      control.currentState := Idle;
    } else if topic == TopicDelay {
      if control.currentState == Configuration {
        if delay.Some? && delay.value >= MinDelay {
          // the assignment of the new delay is commented out in the source
        } else {
          client.Publish(TopicError, ErrorReport(DeviceId, ReasonDelayFailed));
        }
      } else {
        client.Publish(TopicError, ErrorReport(DeviceId, ReasonIncorrectMode));
      }
    }
  }

  /** `publish_data`: three publications, temperature, humidity, light. */
  method PublishData(client: Client, data: Data)
    modifies client
    ensures client.published == old(client.published) + TelemetryMessages(data)
  {
    client.Publish(TopicTemperature, Telemetry(DeviceId, "temperature", data.temperature, "Celsius"));
    client.Publish(TopicHumidity, Telemetry(DeviceId, "humidicity", data.humicity, "percentage"));
    client.Publish(TopicLight, Telemetry(DeviceId, "light", data.light, "bool"));
  }
}
