/** The sensor gate (components/Sensors/sensors.c): an on/off flag decides
    whether `readSensors` samples the light sensor and the DHT11. The level
    read from the light-sensor pin and the DHT11 inputs are parameters. */
module Sensors {
  import opened Board
  import opened Dht11

  /** `eSensor_error`, with the two values sensors.c returns beyond the two
      its header declares. */
  datatype SensorErr = SensorOk | SensorErrInvalid | SensorErrState | SensorErrRead

  /** `sensor_data_t`, written in place by `readSensors`. */
  class SensorData {
    var light: uint8
    var temperature: uint8
    var humidicity: uint8

    constructor (light: uint8, temperature: uint8, humidicity: uint8)
      ensures this.light == light && this.temperature == temperature && this.humidicity == humidicity
    {
      this.light, this.temperature, this.humidicity := light, temperature, humidicity;
    }
  }

  /** `sensors_init`: configure the light-sensor pin, then the DHT11 pin.
      The second step runs only if the first succeeded. */
  method SensorsInit(ldrInit: EspErr, dhtInit: EspErr) returns (r: SensorErr, dhtInitCalled: bool)
    ensures dhtInitCalled <==> ldrInit == Ok
    ensures r == SensorOk <==> ldrInit == Ok && dhtInit == Ok
    ensures r != SensorOk ==> r == SensorErrInvalid
  {
    dhtInitCalled := false;
    if ldrInit != Ok {
      return SensorErrInvalid, dhtInitCalled;
    }
    dhtInitCalled := true;
    if dhtInit != Ok {
      return SensorErrInvalid, dhtInitCalled;
    }
    r := SensorOk;
  }

  /** The static `state` flag of sensors.c: 1 is on, 0 is off. */
  class SensorGate {
    var state: int

    ghost predicate Valid()
      reads this
    {
      state == 0 || state == 1
    }

    /** The flag starts off. */
    constructor ()
      ensures Valid() && state == 0
    {
      state := 0;
    }

    /** `sensors_on`. */
    method SensorsOn()
      modifies this
      ensures Valid() && state == 1
    {
      state := 1;
    }

    /** `sensors_off`. */
    method SensorsOff()
      modifies this
      ensures Valid() && state == 0
    {
      state := 0;
    }

    /** `readSensors`: when on, read the light level and the DHT11; on a
        successful read store light, integral humidity and integral
        temperature, dropping the decimal parts. `*data` is untouched when
        the gate is off or the DHT11 read fails, and the flag never changes. */
    method ReadSensors(data: SensorData, ldrLevel: nat, response: AwaitOutcome, intervals: seq<int>)
      returns (r: SensorErr)
      requires Valid()
      requires |intervals| == FrameBits
      modifies data
      ensures Valid() && state == old(state)
      ensures state == 0 ==> r == SensorErrState && unchanged(data)
      ensures state == 1 && !ReadSucceeds(response, intervals) ==> r == SensorErrRead && unchanged(data)
      ensures state == 1 && ReadSucceeds(response, intervals) ==>
                var f := Split(Assemble(intervals));
                r == SensorOk && data.light == ldrLevel % 256 &&
                data.humidicity == f.humidityInt && data.temperature == f.temperatureInt
    {
      if state == 1 {
        // gpio_read_pin returns uint32_t; the assignment to uint8_t keeps the low byte
        var light: uint8 := ldrLevel % 256;
        var err, humidicityInt, humidicityDec, temperatureInt, temperatureDec := Read(response, intervals, 0, 0, 0, 0);
        if err != Ok {
          return SensorErrRead;
        }
        data.light := light;
        data.humidicity := humidicityInt;
        data.temperature := temperatureInt;
        r := SensorOk;
      } else {
        r := SensorErrState;
      }
    }
  }
}
