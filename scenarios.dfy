/**
 * A client of the driver: what a caller can conclude from the contracts of
 * `MyDHT11` alone, on the sample reading humidity 45 %, temperature 24
 * degrees.
 */
module Scenarios {
  import opened Frame
  import opened SingleWire
  import opened Transmission
  import opened Dht11Driver

  /** A fresh driver reads 0 and 0, then reads the frame 45, 0, 24, 0, 69 correctly. */
  method AcceptedReading()
  {
    var sensor := new MyDHT11(4);
    assert sensor.GetHumidity() == 0 && sensor.GetTemperature() == 0;

    var f: Frame := [45, 0, 24, 0, 69];
    ReceiveSent(f, 0xFFFF_FFF0, 70, 26);
    var ok := sensor.Read(Toggling(), PulseClock(f, 0xFFFF_FFF0, 70, 26));
    assert ok && sensor.GetHumidity() == 45 && sensor.GetTemperature() == 24;
  }

  /**
   * The frame 50, 0, 20, 0, 69 fails the checksum and is refused, yet its
   * humidity 50 and temperature 20 have replaced the stored readings by
   * then; a line that never answers afterwards leaves them alone.
   */
  method RefusedReading()
  {
    var sensor := new MyDHT11(4);
    var g: Frame := [50, 0, 20, 0, 69];
    ReceiveSent(g, 0, 70, 26);
    var ok := sensor.Read(Toggling(), PulseClock(g, 0, 70, 26));
    assert !ok && sensor.GetHumidity() == 50 && sensor.GetTemperature() == 20;

    var silent: nat -> Level := (k: nat) => Low;
    NoResponse(silent, PulseClock(g, 0, 70, 26));
    ok := sensor.Read(silent, PulseClock(g, 0, 70, 26));
    assert !ok && sensor.GetHumidity() == 50 && sensor.GetTemperature() == 20;
  }
}
