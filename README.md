# ESP32 sensor node: control core in Dafny

This project models the control core of an ESP32 environmental sensor node and proves properties of it. The core has five parts:

- **DHT11 decoder** (`dht11.dfy`, module `Dht11`). It turns the 40 measured high-pulse widths of one DHT11 frame into a 40-bit word, most significant bit first. A pulse longer than 50 µs is a 1. The word is split into humidity-int, humidity-dec, temperature-int, temperature-dec and a checksum byte. `dht11_read` checks the checksum with a wrapping 8-bit sum. The four per-field readers compare the unreduced `int` sum instead.
- **Control state** (`events.dfy`, module `Events`). It holds the mode (`performance`, `configuration`, `idle`), the Wi-Fi flag and the inbound message queue. It also holds the button transitions: OFF forces `idle`, and any other button toggles between the two active modes or leaves `idle` for `performance`.
- **Remote message router** (`communications.dfy`, module `Communications`). It models the `MQTT_EVENT_DATA` branch: four fixed topics either set the mode or attempt a delay configuration, and each rejection publishes one error report. It also models `publish_data`'s three telemetry messages. The MQTT client is the ordered log of what it was asked to publish.
- **Deferred-interrupt bridge** (`buttons.dfy`, module `Buttons`). The interrupt handlers only enqueue a button id into a queue of depth 10, and drop it when the queue is full. The button task dequeues ids in FIFO order and hands each to the registered callback, if there is one.
- **Sensor gate** (`sensors.dfy`, module `Sensors`). An on/off flag decides whether `readSensors` samples anything. Buffer fields are written only on a successful DHT11 read.

Support modules:

- `fifo.dfy` (`Fifo`): the FreeRTOS queue, used sequentially, as a bounded FIFO whose sends never block.
- `board.dfy` (`Board`): the constants of `board_definition.h`, the `esp_err_t` values in use, and `uint8`.
- `bits.dfy` (`Bits`): powers of two and division facts.
- `wrappers.dfy` (`Wrappers`): `Option`.

How the model treats the hardware and foreign calls:

- The DHT11 line timing is an input. The model takes the outcome of `dht11_await_response_sensor` (`AwaitOutcome`) and the 40 pulse widths.
- Configuration calls into the GPIO driver are inputs: the `esp_err_t` results of `gpio_init`, `gpio_config_intr` and `dht11_init`.
- The light-sensor level from `gpio_read_pin` is an input.
- The parse done by `json_scanf` is an input of type `Option<int>`.
- Out-pointers are modelled as in/out values. The method receives the caller's old value and returns the new one. It returns the old value unchanged wherever the C code does not write through the pointer.
- `uint64_t` and `uint8_t` arithmetic is written with its wrap-around. The word is proved to stay below 2^40, so the 64-bit shift never wraps.
- `gpio_read_pin` returns a 32-bit value that is stored in a `uint8_t`, so the model keeps its low byte.

Points where the code decides the model:

- An accepted delay publishes nothing and changes nothing. The assignment at `communications.c:77` is commented out, and no declaration of `delay` is visible to `communications.c`.
- `communications.c` has two delay error reports. "INCORRECT MODE" is for a delay message outside `configuration`. A failed parse and a value below `MIN_DELAY` share "CONFIGURATION DELAY FAILED".
- `DHT11.c` has two checksum rules. `dht11_read` compares the 8-bit wrapping sum with the checksum byte. The four per-field readers compare the unreduced `int` sum. The model keeps both and proves exactly where they differ.
- The header `sensors.h` declares only `SENSOR_OK` and `SENSOR_ERR_INVALID`. `sensors.c` also returns `SENSOR_ERR_STATE` and `SENSOR_ERR_READ`, so `SensorErr` has all four values.
- `communications.c` writes a global `currentState`; `events.c` writes `gControlVariables.currentState`. The model has a single `ControlState` object that both use.
- Button ids come from `board_definition.h` (CHANGE 26, OFF 27).

## Model

| member | source | states |
|---|---|---|
| `Dht11.AwaitResponse` | firmware/esp32-circuit/components/DHT11/DHT11.c:131-151 | the await step succeeds only when the sensor responded; a refused direction switch and a timeout are errors other than a CRC error |
| `Dht11.ReceiveData` | firmware/esp32-circuit/components/DHT11/DHT11.c:164-191 | a failed await step is returned unchanged and leaves `*data` untouched. Otherwise the result is ESP_OK and the word is the assembled pulses. The word is below 2^40, and pulse k gives bit 39-k, which is 1 exactly when the pulse is longer than 50 µs |
| `Dht11.BitOf` | firmware/esp32-circuit/components/DHT11/DHT11.c:184 | one pulse gives one bit, which is 1 exactly when the width is strictly greater than 50 µs |
| `Dht11.Assemble` | firmware/esp32-circuit/components/DHT11/DHT11.c:182-189 | the word the assembly loop builds: each pulse shifts the word left and appends its bit. A word built from n pulses is below 2^n |
| `Dht11.AssembleBitAt` | firmware/esp32-circuit/components/DHT11/DHT11.c:183-188 | MSB first: pulse k becomes bit n-1-k, and that bit is 1 iff the width is strictly greater than 50 (exactly 50 gives 0) |
| `Dht11.AssembleBits` | firmware/esp32-circuit/components/DHT11/DHT11.c:182-189 | the same for every pulse of the train at once |
| `Dht11.ShiftStaysInWord` | firmware/esp32-circuit/components/DHT11/DHT11.c:184-188 | while fewer than 40 bits are in, the `uint64_t` left shift never wraps and the word stays below 2^(i+1) |
| `Dht11.AssemblePulses` | firmware/esp32-circuit/components/DHT11/DHT11.c:182-189 | round trip: the pulse train a sensor emits for a word decodes back to that word |
| `Dht11.Split` | firmware/esp32-circuit/components/DHT11/DHT11.c:101-113 | the shift-and-mask extraction `(data >> 32) & 0xFF`, `(data >> 24) & 0xFF`, `(data >> 16) & 0xFF`, `(data >> 8) & 0xFF`, `data & 0xFF` into humidity-int, humidity-dec, temperature-int, temperature-dec and checksum. The readers repeat it at lines 40-41, 55-56, 70-71 and 85-86. Its meaning is given by `Dht11.SplitPack` and `Dht11.PackSplit` |
| `Dht11.Pack` | firmware/esp32-circuit/components/DHT11/DHT11.c:101-113 | the positional layout of the five bytes (bits 39..32, 31..24, 23..16, 15..8, 7..0) always fits in 40 bits |
| `Dht11.SplitPack` | firmware/esp32-circuit/components/DHT11/DHT11.c:101-113 | the shift-and-mask extraction recovers every field of a packed frame |
| `Dht11.PackSplit` | firmware/esp32-circuit/components/DHT11/DHT11.c:101-113 | every word below 2^40 is exactly the packing of its five extracted bytes |
| `Dht11.EveryFrameReceivable` | firmware/esp32-circuit/components/DHT11/DHT11.c:182-189 | every frame arrives intact: the sensor's pulses for it decode to exactly that frame |
| `Dht11.Read` | firmware/esp32-circuit/components/DHT11/DHT11.c:93-120 | a handshake error is returned unchanged and no out-parameter is written. Otherwise all four data out-parameters hold the decoded fields, even when the checksum fails. The result is OK iff the sum mod 256 equals the checksum byte, and ESP_ERR_INVALID_CRC otherwise |
| `Dht11.AddU8` | firmware/esp32-circuit/components/DHT11/DHT11.c:102-111 | one `uint8_t +=`: the result is the true sum, or the true sum minus 256 when it passes 255 |
| `Dht11.Crc8Accepts` | firmware/esp32-circuit/components/DHT11/DHT11.c:115 | `dht11_read`'s rule: the data bytes summed modulo 256 equal the checksum byte |
| `Dht11.CrcIntAccepts` | firmware/esp32-circuit/components/DHT11/DHT11.c:41-42 | the per-field readers' rule (also lines 56-57, 71-72, 86-87): the unreduced `int` sum of the data bytes equals the checksum byte |
| `Dht11.AccumulateChecksum` | firmware/esp32-circuit/components/DHT11/DHT11.c:95-111 | the four `uint8_t` additions leave the accumulator equal to the sum of the data bytes modulo 256 |
| `Dht11.WrappingSum` | firmware/esp32-circuit/components/DHT11/DHT11.c:95-111 | accumulating the four bytes into a `uint8_t` one by one gives their full sum modulo 256 |
| `Dht11.ReadHumidityIntegral` | firmware/esp32-circuit/components/DHT11/DHT11.c:33-46 | a handshake error is returned and the out-parameter is untouched. Otherwise the out-parameter is humidity-int, written before the check. The result is OK iff the unreduced sum equals the checksum byte, and a CRC error otherwise |
| `Dht11.ReadHumidityDecimal` | firmware/esp32-circuit/components/DHT11/DHT11.c:48-61 | as above, for humidity-dec |
| `Dht11.ReadTemperatureIntegral` | firmware/esp32-circuit/components/DHT11/DHT11.c:63-76 | as above, for temperature-int |
| `Dht11.ReadTemperatureDecimal` | firmware/esp32-circuit/components/DHT11/DHT11.c:78-91 | as above, for temperature-dec |
| `Dht11.IntRuleImpliesCrc8Rule` | firmware/esp32-circuit/components/DHT11/DHT11.c:41-42 | a frame the per-field readers accept is also accepted by `dht11_read` |
| `Dht11.RulesDifferExactlyOnWrap` | firmware/esp32-circuit/components/DHT11/DHT11.c:56-57 | the two rules disagree exactly when the data bytes sum past 255 and the checksum is that sum mod 256. `dht11_read` accepts such a frame and the readers reject it |
| `Dht11.WrappedFrameReceivable` | firmware/esp32-circuit/components/DHT11/DHT11.c:71-72 | every such disagreeing frame can actually arrive as a 40-pulse train |
| `Dht11.WrappedFrameWitness` | firmware/esp32-circuit/components/DHT11/DHT11.c:86-87 | a concrete one exists: humidity 200, temperature 100, checksum 44 |
| `Events.ControlState.constructor` | firmware/esp32-circuit/components/Events/events.c:5-9 | `events_init` leaves the mode `idle`, the Wi-Fi flag 0 and a fresh, empty message queue of depth 10 |
| `Events.ButtonTransition` | firmware/esp32-circuit/components/Events/events.c:11-23 | OFF gives `idle`. Any other id gives a mode that is neither `idle` nor the current one, and `performance` when leaving `idle` |
| `Events.ControlState.CallbackButtons` | firmware/esp32-circuit/components/Events/events.c:11-23 | the mode follows the button transition; the Wi-Fi flag and the queue are untouched |
| `Events.OffButtonIdempotent` | firmware/esp32-circuit/components/Events/events.c:12-13 | repeating OFF is a no-op |
| `Events.ToggleTwiceRestores` | firmware/esp32-circuit/components/Events/events.c:15-18 | two non-OFF events from `performance` or `configuration` return to the start |
| `Events.ApplyButtonsIdle` | firmware/esp32-circuit/components/Events/events.c:11-23 | after any non-empty run of button callbacks the device is idle iff the last id was OFF |
| `Events.ApplyTogglesParity` | firmware/esp32-circuit/components/Events/events.c:14-22 | from an active mode, a run without OFF never reaches `idle` and returns to the start iff its length is even |
| `Events.ControlState.CallbackInitWifi` | firmware/esp32-circuit/components/Events/events.c:25-31 | the flag is 1 iff the argument is 1, else 0, so the flag is always 0 or 1; the mode and the queue are untouched |
| `Events.ControlState.CallbackEventMqtt` | firmware/esp32-circuit/components/Events/events.c:33-35 | the message is appended when the queue holds fewer than 10 and dropped otherwise; the mode and the flag are untouched |
| `Events.ControlState.GetControlVariables` | firmware/esp32-circuit/components/Events/events.c:37-39 | a read-only view that agrees with the control state, with the flag 0 or 1 and at most 10 pending messages |
| `Fifo.Queue.constructor` | firmware/esp32-circuit/components/Events/events.c:8 | `xQueueCreate` with a given depth (10 at events.c:8 and at buttons.c:13): an empty queue of that capacity |
| `Fifo.Queue.Send` | firmware/esp32-circuit/components/Events/events.c:34 | a send without waiting appends when there is room; on a full queue it fails and the contents stay as they were |
| `Fifo.Queue.Receive` | firmware/esp32-circuit/components/Buttons/buttons.c:26 | a receive removes and returns the oldest item; on an empty queue the caller stays blocked and nothing changes |
| `Communications.OnData` | firmware/esp32-circuit/components/Communications/communications.c:60-92 | ON, CONFIG and SLEEP set `performance`, `configuration` and `idle` from any mode and publish nothing. An unknown topic changes nothing. A delay message never changes the mode. It publishes "INCORRECT MODE" outside `configuration`. In `configuration` it publishes "CONFIGURATION DELAY FAILED" unless the parse gave a value of at least 2000, when it publishes nothing |
| `Communications.HandleData` | firmware/esp32-circuit/components/Communications/communications.c:39-93 | the method's new mode and appended publications are exactly those of `OnData`, and the wifi flag and message queue are untouched |
| `Communications.OnDataStateIdempotent` | firmware/esp32-circuit/components/Communications/communications.c:60-92 | handling the same message twice leaves the mode where handling it once did |
| `Communications.OnDataPublishesOnlyErrors` | firmware/esp32-circuit/components/Communications/communications.c:69-92 | at most one publication per message, only for the delay topic, always an error report with id 1 on `ESP32/1/error` |
| `Communications.DelayAcceptedIff` | firmware/esp32-circuit/components/Communications/communications.c:71-91 | a delay message is accepted iff the mode is `configuration` and the value is at least `MIN_DELAY`. A parse failure and a below-minimum value give the same report |
| `Communications.RoutingExamples` | firmware/esp32-circuit/components/Communications/communications.c:60-92 | worked cases: 1500 ms in configuration is reported, 3000 ms is not, a delay in performance is a mode error, ON wakes an idle device, SLEEP on an idle device is a silent no-op |
| `Communications.ErrorMessage` | firmware/esp32-circuit/components/Communications/communications.c:80-90 | the report both delay rejections publish: `{id: 1, error: <reason>}` on `ESP32/1/error` |
| `Communications.TelemetryMessages` | firmware/esp32-circuit/components/Communications/communications.c:138-149 | three messages in order, temperature ("Celsius"), humidicity ("percentage") and light ("bool"), each with id 1 and its field of `data_t` |
| `Communications.PublishData` | firmware/esp32-circuit/components/Communications/communications.c:124-149 | the log grows by exactly the three telemetry messages, in that order |
| `Communications.Client.Publish` | firmware/esp32-circuit/components/Communications/communications.c:141 | a publication is appended to the client's log |
| `Buttons.ButtonsInit` | firmware/esp32-circuit/components/Buttons/buttons.c:6-15 | the callback is stored, a fresh empty queue of depth 10 is created, and the result is BUTTON_OK iff all three configuration calls returned ESP_OK |
| `Buttons.ButtonBridge.ChangeButtonIsr` | firmware/esp32-circuit/components/Buttons/buttons.c:34-38 | enqueues exactly CHANGE_BUTTON when there is room, and nothing on a full queue; the callback and its calls are untouched |
| `Buttons.ButtonBridge.OffButtonIsr` | firmware/esp32-circuit/components/Buttons/buttons.c:40-43 | the same for OFF_BUTTON |
| `Buttons.ButtonBridge.TaskStep` | firmware/esp32-circuit/components/Buttons/buttons.c:25-29 | one dequeue: the oldest id is removed and passed to the callback once, or consumed without a call when the callback is NULL; an empty queue leaves everything as it was |
| `Buttons.ButtonBridge.ButtonIsrTask` | firmware/esp32-circuit/components/Buttons/buttons.c:22-31 | running the task drains the queue; the callback receives every queued id exactly once in FIFO order, or none when it is NULL |
| `Sensors.SensorsInit` | firmware/esp32-circuit/components/Sensors/sensors.c:10-18 | SENSOR_ERR_INVALID at the first failing step, and the DHT11 step runs only if the first succeeded; SENSOR_OK iff both succeed |
| `Sensors.SensorGate.constructor` | firmware/esp32-circuit/components/Sensors/sensors.c:8 | the gate starts off (0) |
| `Sensors.SensorGate.SensorsOn` | firmware/esp32-circuit/components/Sensors/sensors.c:20-22 | the flag becomes 1 whatever it was, so calling it again changes nothing |
| `Sensors.SensorGate.SensorsOff` | firmware/esp32-circuit/components/Sensors/sensors.c:23-25 | the flag becomes 0 whatever it was, so calling it again changes nothing |
| `Sensors.SensorGate.ReadSensors` | firmware/esp32-circuit/components/Sensors/sensors.c:27-42 | off: SENSOR_ERR_STATE, buffer untouched. On with a failed DHT11 read: SENSOR_ERR_READ, buffer untouched. On with a good read: SENSOR_OK, light is the low byte of the pin level, humidity and temperature are the integral parts. The flag never changes |

## Left out

- DHT11 line timing: the busy-waits in `dht11_wakeup_sensor`, `dht11_await_response_sensor` and `dht11_receive_bits` (DHT11.c:122-162) and the critical section around the sampling. They are hardware timing, so the model takes the await outcome and the 40 pulse widths as inputs. The 18 ms wake wait at DHT11.c:126 loops only while the elapsed time equals 18000 µs, so it does not actually wait; this is not modelled.
- `dht11_wakeup_sensor` always returns ESP_OK, so `dht11_receive_data`'s check of its result is a branch that cannot be taken and is not modelled. The ignored result of `dht11_receive_bits` is not modelled either.
- `dht11_init` and the GPIO wrappers (`gpio.c`): pin configuration is foreign. Only its `esp_err_t` result enters the model, as a parameter.
- The MQTT client lifecycle (`mqtt_app_start`, subscriptions, the non-DATA events) is transport plumbing. `json_scanf`/`json_printf` are a foreign library: parse results are `Option<int>` and payloads are records, not JSON text.
- The topic copy into the 40-byte buffer can overflow for long topics. `HandleData` requires topics shorter than 40 characters instead. Embedded NUL characters, which would cut `strcmp` short, are not modelled.
- The sampling interval: the delay assignment at `communications.c:77` is commented out and no declaration of `delay` is visible to `communications.c`, so no interval state is modelled.
- `xQueueCreate` returns NULL when it cannot allocate the queue (events.c:8, buttons.c:13). The model always has a queue. The `ESP_LOGI`/`ESP_LOGE` log output of the DATA branch (communications.c:59, 78, 84) is not modelled.
- FreeRTOS concurrency: task creation, interrupt context, blocking with `portMAX_DELAY`, and the race in which the button task is created before its queue. Queues are used sequentially, and a blocked receive is a step that does nothing.
- The callback pointer of `buttons.c` is modelled by whether one is registered and by the log of ids it was called with. What the callback then does is `Events.ControlState.CallbackButtons` when it is `callback_buttons`.
- `leds.c`, `main.c` and `wifi.h` are not part of this model: LED output, a test bootstrap loop, and connection plumbing.
- `Sensors.SensorGate.ReadSensors`: that the DHT11 is not read when the gate is off appears only in that the result and the buffer do not depend on the DHT11 inputs; the bus traffic itself is not modelled.
