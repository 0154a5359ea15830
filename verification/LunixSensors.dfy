/** The measurement pages of a sensor, as the parser publishes and the device file reads them. */
module LunixSensors {
  /** One page: the value last received, and in which second. */
  datatype Msr = Msr(value: nat, lastUpdate: nat)

  datatype Sensor = Sensor(batt: Msr, temp: Msr, light: Msr)

  /** `lunix_sensor_update`: all three pages change together; the clock is cut to 32 bits. */
  function SensorUpdate(batt: nat, temp: nat, light: nat, now: nat): Sensor {
    var stamp := now % 0x1_0000_0000;
    Sensor(Msr(batt, stamp), Msr(temp, stamp), Msr(light, stamp))
  }
}
