/** The DHT11 single-wire decoder (components/DHT11/DHT11.c).

    The line-level part (waking the sensor, awaiting its response, timing
    the 40 high pulses) is hardware timing; it enters the model as an
    `AwaitOutcome` and as the 40 measured pulse widths in microseconds.
    What follows from those inputs is modelled as the source computes it:
    the bit assembly loop, the field extraction, and the two different
    checksum rules of `dht11_read` and of the four per-field readers. */
module Dht11 {
  import opened Board
  import opened Bits

  /** Number of bits in one DHT11 frame. */
  const FrameBits: nat := 40

  /** A high pulse strictly longer than this many microseconds is a 1. */
  const OneThreshold: int := 50

  /** `uint64_t` arithmetic wraps modulo 2^64. */
  const U64Modulus: nat := 0x1_0000_0000_0000_0000

  /** High-pulse widths the sensor produces (datasheet: about 26-28 us
      for a 0 and 70 us for a 1); used only to build inputs in lemmas. */
  const ZeroPulse: int := 26
  const OnePulse: int := 70

  /** How `dht11_await_response_sensor` ended: the sensor answered, the pin
      could not be switched to input, or one of the two waits exceeded the
      one-second timeout. */
  datatype AwaitOutcome = Responded | DirectionRefused | TimedOut

  /** The five bytes of a frame, in wire order. */
  datatype Frame = Frame(humidityInt: uint8, humidityDec: uint8,
                         temperatureInt: uint8, temperatureDec: uint8,
                         checksum: uint8)

  /** The error code `dht11_await_response_sensor` returns for an outcome. */
  function AwaitResponse(o: AwaitOutcome): (e: EspErr)
    ensures e == Ok <==> o == Responded
    ensures e != InvalidCrc
  {
    match o
    case Responded => Ok
    case DirectionRefused => InvalidArg
    case TimedOut => Timeout
  }

  /** Classification of one pulse width. */
  function BitOf(width: int): (b: nat)
    ensures b <= 1
    ensures b == 1 <==> width > OneThreshold
  {
    if width > OneThreshold then 1 else 0
  }

  /** The word the assembly loop builds from a prefix of the pulse widths:
      each step shifts the word left and appends the next bit. */
  function Assemble(widths: seq<int>): (word: nat)
    ensures word < Pow2(|widths|)
  {
    if widths == [] then 0
    else 2 * Assemble(widths[..|widths| - 1]) + BitOf(widths[|widths| - 1])
  }

  /** The field extraction shared by `dht11_read` and the per-field
      readers: `(word >> 32) & 0xFF`, `(word >> 24) & 0xFF`, ...,
      `word & 0xFF`. */
  function Split(word: nat): (f: Frame)
  {
    Frame((word / 0x1_0000_0000) % 0x100, (word / 0x100_0000) % 0x100,
          (word / 0x1_0000) % 0x100, (word / 0x100) % 0x100, word % 0x100)
  }

  /** The 40-bit word carrying a frame: humidity-int in bits 39..32,
      humidity-dec in 31..24, temperature-int in 23..16, temperature-dec in
      15..8 and the checksum in 7..0. */
  function Pack(f: Frame): (word: nat)
    ensures word < Pow2(FrameBits)
  {
    Pow2Values();
    f.humidityInt * 0x1_0000_0000 + f.humidityDec * 0x100_0000 + f.temperatureInt * 0x1_0000
      + f.temperatureDec * 0x100 + f.checksum
  }

  /** Pulse widths a sensor emits for the low `n` bits of `word`, most
      significant bit first. */
  function Pulses(word: nat, n: nat): (widths: seq<int>)
    ensures |widths| == n
  {
    if n == 0 then []
    else Pulses(word / 2, n - 1) + [if word % 2 == 1 then OnePulse else ZeroPulse]
  }

  /** The unreduced sum of the four data bytes (the `int checksum` of the
      per-field readers). */
  function FieldSum(f: Frame): (sum: nat)
  {
    f.humidityInt + f.humidityDec + f.temperatureInt + f.temperatureDec
  }

  /** `dht11_read`'s rule: the 8-bit wrapping sum equals the checksum byte. */
  predicate Crc8Accepts(f: Frame)
  {
    FieldSum(f) % 256 == f.checksum
  }

  /** The per-field readers' rule: the unreduced sum equals the checksum byte. */
  predicate CrcIntAccepts(f: Frame)
  {
    FieldSum(f) == f.checksum
  }

  /** `dht11_read` returns ESP_OK for these inputs. */
  predicate ReadSucceeds(response: AwaitOutcome, intervals: seq<int>)
  {
    response == Responded && Crc8Accepts(Split(Assemble(intervals)))
  }

  // ---------------------------------------------------------------------
  // Properties of the bit assembly

  /** Pulse `k` becomes bit `|widths| - 1 - k` of the word (most significant
      first), and that bit is 1 exactly when the pulse is longer than 50 us. */
  lemma {:induction false} AssembleBitAt(widths: seq<int>, k: nat)
    requires k < |widths|
    ensures BitAt(Assemble(widths), |widths| - 1 - k) == 1 <==> widths[k] > OneThreshold
  {
    var n := |widths|;
    var front := widths[..n - 1];
    var b := BitOf(widths[n - 1]);
    assert Assemble(widths) == 2 * Assemble(front) + b;
    if k == n - 1 {
      assert Pow2(0) == 1;
      DivUnique(Assemble(widths), 2, Assemble(front), b);
      assert BitAt(Assemble(widths), 0) == b;
    } else {
      AssembleBitAt(front, k);
      ShiftInThenOut(Assemble(front), b, n - 1 - k);
      assert BitAt(Assemble(widths), n - 1 - k) == BitAt(Assemble(front), |front| - 1 - k);
      assert front[k] == widths[k];
    }
  }

  /** `AssembleBitAt` for every pulse at once. */
  lemma AssembleBits(widths: seq<int>)
    ensures forall k :: 0 <= k < |widths| ==>
              (BitAt(Assemble(widths), |widths| - 1 - k) == 1 <==> widths[k] > OneThreshold)
  {
    forall k | 0 <= k < |widths|
      ensures BitAt(Assemble(widths), |widths| - 1 - k) == 1 <==> widths[k] > OneThreshold
    {
      AssembleBitAt(widths, k);
    }
  }

  /** Decoding the pulses a sensor emits for a word gives back the word. */
  lemma {:induction false} AssemblePulses(word: nat, n: nat)
    requires word < Pow2(n)
    ensures Assemble(Pulses(word, n)) == word
  {
    if n > 0 {
      var widths := Pulses(word, n);
      assert widths[..n - 1] == Pulses(word / 2, n - 1);
      AssemblePulses(word / 2, n - 1);
    }
  }

  // ---------------------------------------------------------------------
  // Properties of the field layout

  lemma SplitPack(f: Frame)
    ensures Split(Pack(f)) == f
  {
    var w := Pack(f);
    var q24 := f.humidityInt * 0x100 + f.humidityDec;
    var q16 := q24 * 0x100 + f.temperatureInt;
    var q8 := q16 * 0x100 + f.temperatureDec;
    DivUnique(w, 0x100, q8, f.checksum);
    DivUnique(q8, 0x100, q16, f.temperatureDec);
    DivUnique(q16, 0x100, q24, f.temperatureInt);
    DivUnique(q24, 0x100, f.humidityInt, f.humidityDec);
    DivUnique(f.humidityInt, 0x100, 0, f.humidityInt);
    DivAgain(w, 0x100, 0x100);
    DivAgain(w, 0x1_0000, 0x100);
    DivAgain(w, 0x100_0000, 0x100);
  }

  /** Every word below 2^40 is the packing of its fields. */
  lemma PackSplit(word: nat)
    requires word < Pow2(FrameBits)
    ensures Pack(Split(word)) == word
  {
    Pow2Values();
    var f := Split(word);
    var q8, q16, q24, q32 := word / 0x100, word / 0x1_0000, word / 0x100_0000, word / 0x1_0000_0000;
    DivAgain(word, 0x100, 0x100);
    DivAgain(word, 0x1_0000, 0x100);
    DivAgain(word, 0x100_0000, 0x100);
    assert f.humidityInt == q32;
    assert q24 == f.humidityInt * 0x100 + f.humidityDec;
    assert q16 == q24 * 0x100 + f.temperatureInt;
    assert q8 == q16 * 0x100 + f.temperatureDec;
    assert word == q8 * 0x100 + f.checksum;
  }

  /** Every frame can be received: the pulses a sensor emits for it decode
      back to exactly that frame. */
  lemma EveryFrameReceivable(f: Frame)
    ensures |Pulses(Pack(f), FrameBits)| == FrameBits
    ensures Split(Assemble(Pulses(Pack(f), FrameBits))) == f
  {
    AssemblePulses(Pack(f), FrameBits);
    SplitPack(f);
  }

  // ---------------------------------------------------------------------
  // The two checksum rules

  /** A frame the per-field readers accept is accepted by `dht11_read`. */
  lemma IntRuleImpliesCrc8Rule(f: Frame)
    ensures CrcIntAccepts(f) ==> Crc8Accepts(f)
  {
  }

  /** The two rules disagree exactly on frames whose data bytes sum past 255
      and whose checksum is that sum modulo 256: `dht11_read` accepts them
      and the per-field readers report a CRC error. */
  lemma RulesDifferExactlyOnWrap(f: Frame)
    ensures (Crc8Accepts(f) && !CrcIntAccepts(f)) <==> (FieldSum(f) > 255 && FieldSum(f) % 256 == f.checksum)
    ensures !(CrcIntAccepts(f) && !Crc8Accepts(f))
  {
  }

  /** Every frame on which the two rules disagree can actually arrive on
      the wire. */
  lemma WrappedFrameReceivable(f: Frame)
    requires FieldSum(f) > 255 && FieldSum(f) % 256 == f.checksum
    ensures exists widths: seq<int> :: |widths| == FrameBits && Split(Assemble(widths)) == f &&
              Crc8Accepts(Split(Assemble(widths))) && !CrcIntAccepts(Split(Assemble(widths)))
  {
    var widths := Pulses(Pack(f), FrameBits);
    EveryFrameReceivable(f);
    assert Split(Assemble(widths)) == f;
  }

  /** Such frames exist: humidity 200.0 %, temperature 100.0, checksum 44
      (300 modulo 256). */
  lemma WrappedFrameWitness()
    ensures exists widths: seq<int> :: |widths| == FrameBits &&
              Crc8Accepts(Split(Assemble(widths))) && !CrcIntAccepts(Split(Assemble(widths)))
  {
    var f := Frame(200, 0, 100, 0, 44);
    assert FieldSum(f) == 300;
    WrappedFrameReceivable(f);
  }

  // ---------------------------------------------------------------------
  // The operations

  /** `dht11_receive_data`: wake the sensor, await its response, then turn
      the 40 measured pulse widths into a word. `data0` is the caller's
      `*data`, returned untouched when the handshake fails.
      `dht11_wakeup_sensor` has no failing path, so only the await step
      can end the operation early; once the pulses are measured the result
      is always ESP_OK. */
  method ReceiveData(response: AwaitOutcome, intervals: seq<int>, data0: nat)
    returns (err: EspErr, data: nat)
    requires |intervals| == FrameBits
    ensures err == AwaitResponse(response)
    ensures err != Ok ==> data == data0
    ensures err == Ok ==> data == Assemble(intervals) && data < Pow2(FrameBits)
    ensures err == Ok ==> forall k :: 0 <= k < FrameBits ==>
              (BitAt(data, FrameBits - 1 - k) == 1 <==> intervals[k] > OneThreshold)
  {
    data := data0;
    err := AwaitResponse(response);
    if err != Ok {
      return;
    }
    data := 0;
    for i := 0 to FrameBits
      invariant data == Assemble(intervals[..i])
      invariant data < Pow2(i)
    {
      assert intervals[..i + 1][..i] == intervals[..i];
      ShiftStaysInWord(data, i);
      // (*data << 1) | bit: the shift is a uint64_t shift; bit 0 is clear after it
      if intervals[i] > OneThreshold {
        data := (data * 2) % U64Modulus + 1;
      } else {
        data := (data * 2) % U64Modulus;
      }
    }
    assert intervals[..FrameBits] == intervals;
    AssembleBits(intervals);
  }

  /** While fewer than 40 bits are in, shifting the word left never wraps
      the `uint64_t`, and appending a bit keeps it below 2^(i+1). */
  lemma ShiftStaysInWord(data: nat, i: nat)
    requires i < FrameBits && data < Pow2(i)
    ensures (data * 2) % U64Modulus == data * 2
    ensures data * 2 + 1 < Pow2(i + 1)
  {
    Pow2Monotone(i + 1, FrameBits);
    Pow2Values();
    DivUnique(data * 2, U64Modulus, 0, data * 2);
  }

  /** `dht11_read`: receive a frame, write the four data bytes to the
      out-locations, accumulate the 8-bit checksum and compare it with the
      received one. The out-locations come in as `humidityInt0` ... and
      come back unchanged when the handshake fails; once a word is received
      they hold its fields whether or not the checksum matches. */
  method Read(response: AwaitOutcome, intervals: seq<int>,
              humidityInt0: uint8, humidityDec0: uint8, temperatureInt0: uint8, temperatureDec0: uint8)
    returns (err: EspErr, humidityInt: uint8, humidityDec: uint8, temperatureInt: uint8, temperatureDec: uint8)
    requires |intervals| == FrameBits
    ensures response != Responded ==>
              err == AwaitResponse(response) &&
              humidityInt == humidityInt0 && humidityDec == humidityDec0 &&
              temperatureInt == temperatureInt0 && temperatureDec == temperatureDec0
    ensures response == Responded ==>
              var f := Split(Assemble(intervals));
              humidityInt == f.humidityInt && humidityDec == f.humidityDec &&
              temperatureInt == f.temperatureInt && temperatureDec == f.temperatureDec &&
              (err == Ok <==> Crc8Accepts(f)) && (err != Ok ==> err == InvalidCrc)
    ensures err == Ok <==> ReadSucceeds(response, intervals)
  {
    humidityInt, humidityDec, temperatureInt, temperatureDec :=
      humidityInt0, humidityDec0, temperatureInt0, temperatureDec0;
    var data;
    err, data := ReceiveData(response, intervals, 0);
    if err != Ok {
      return;
    }
    // the five shift-and-mask extractions
    var f := Split(data);
    humidityInt, humidityDec, temperatureInt, temperatureDec :=
      f.humidityInt, f.humidityDec, f.temperatureInt, f.temperatureDec;
    var checksumCalculated := AccumulateChecksum(f);
    if checksumCalculated != f.checksum {
      err := InvalidCrc;
    }
  }

  /** `uint8_t` addition, which wraps modulo 256. */
  function AddU8(x: uint8, y: uint8): (sum: uint8)
    ensures sum == x + y || sum == x + y - 256
  {
    (x + y) % 256
  }

  /** The four `checksum_calculated +=` steps of `dht11_read`, each a
      `uint8_t` addition: the accumulator ends as the sum of the data
      bytes modulo 256. */
  method AccumulateChecksum(f: Frame) returns (checksum: uint8)
    ensures checksum == FieldSum(f) % 256
  {
    checksum := 0;
    checksum := AddU8(checksum, f.humidityInt);
    checksum := AddU8(checksum, f.humidityDec);
    checksum := AddU8(checksum, f.temperatureInt);
    checksum := AddU8(checksum, f.temperatureDec);
    WrappingSum(f.humidityInt, f.humidityDec, f.temperatureInt, f.temperatureDec);
  }

  /** Adding byte by byte into a `uint8_t` accumulator gives the full sum
      modulo 256. */
  lemma WrappingSum(a: uint8, b: uint8, c: uint8, d: uint8)
    ensures AddU8(AddU8(AddU8(AddU8(0, a), b), c), d) == (a + b + c + d) % 256
  {
    DivUnique(a, 256, 0, a);
    var q1, s1 := (a + b) / 256, (a + b) % 256;
    var q2, s2 := (s1 + c) / 256, (s1 + c) % 256;
    var q3, s3 := (s2 + d) / 256, (s2 + d) % 256;
    assert a + b == q1 * 256 + s1;
    assert s1 + c == q2 * 256 + s2;
    assert s2 + d == q3 * 256 + s3;
    DivUnique(a + b + c + d, 256, q1 + q2 + q3, s3);
  }

  /** `dht11_read_humidity_integral`. */
  method ReadHumidityIntegral(response: AwaitOutcome, intervals: seq<int>, humidity0: uint8)
    returns (err: EspErr, humidity: uint8)
    requires |intervals| == FrameBits
    ensures response != Responded ==> err == AwaitResponse(response) && humidity == humidity0
    ensures response == Responded ==>
              var f := Split(Assemble(intervals));
              humidity == f.humidityInt && (err == Ok <==> CrcIntAccepts(f)) && (err != Ok ==> err == InvalidCrc)
  {
    humidity := humidity0;
    var data;
    err, data := ReceiveData(response, intervals, 0);
    if err != Ok {
      return;
    }
    var f := Split(data);
    humidity := f.humidityInt;
    var checksum: int := f.humidityInt + f.humidityDec + f.temperatureInt + f.temperatureDec;
    if checksum != f.checksum {
      err := InvalidCrc;
    }
  }

  /** `dht11_read_humidity_decimal`. */
  method ReadHumidityDecimal(response: AwaitOutcome, intervals: seq<int>, humidity0: uint8)
    returns (err: EspErr, humidity: uint8)
    requires |intervals| == FrameBits
    ensures response != Responded ==> err == AwaitResponse(response) && humidity == humidity0
    ensures response == Responded ==>
              var f := Split(Assemble(intervals));
              humidity == f.humidityDec && (err == Ok <==> CrcIntAccepts(f)) && (err != Ok ==> err == InvalidCrc)
  {
    humidity := humidity0;
    var data;
    err, data := ReceiveData(response, intervals, 0);
    if err != Ok {
      return;
    }
    var f := Split(data);
    humidity := f.humidityDec;
    var checksum: int := f.humidityInt + f.humidityDec + f.temperatureInt + f.temperatureDec;
    if checksum != f.checksum {
      err := InvalidCrc;
    }
  }

  /** `dht11_read_temperature_integral`. */
  method ReadTemperatureIntegral(response: AwaitOutcome, intervals: seq<int>, temperature0: uint8)
    returns (err: EspErr, temperature: uint8)
    requires |intervals| == FrameBits
    ensures response != Responded ==> err == AwaitResponse(response) && temperature == temperature0
    ensures response == Responded ==>
              var f := Split(Assemble(intervals));
              temperature == f.temperatureInt && (err == Ok <==> CrcIntAccepts(f)) && (err != Ok ==> err == InvalidCrc)
  {
    temperature := temperature0;
    var data;
    err, data := ReceiveData(response, intervals, 0);
    if err != Ok {
      return;
    }
    var f := Split(data);
    temperature := f.temperatureInt;
    var checksum: int := f.humidityInt + f.humidityDec + f.temperatureInt + f.temperatureDec;
    if checksum != f.checksum {
      err := InvalidCrc;
    }
  }

  /** `dht11_read_temperature_decimal`. */
  method ReadTemperatureDecimal(response: AwaitOutcome, intervals: seq<int>, temperature0: uint8)
    returns (err: EspErr, temperature: uint8)
    requires |intervals| == FrameBits
    ensures response != Responded ==> err == AwaitResponse(response) && temperature == temperature0
    ensures response == Responded ==>
              var f := Split(Assemble(intervals));
              temperature == f.temperatureDec && (err == Ok <==> CrcIntAccepts(f)) && (err != Ok ==> err == InvalidCrc)
  {
    temperature := temperature0;
    var data;
    err, data := ReceiveData(response, intervals, 0);
    if err != Ok {
      return;
    }
    var f := Split(data);
    temperature := f.temperatureDec;
    var checksum: int := f.humidityInt + f.humidityDec + f.temperatureInt + f.temperatureDec;
    if checksum != f.checksum {
      err := InvalidCrc;
    }
  }
}
