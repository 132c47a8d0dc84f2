/** A decoded reading: src/measurement.rs. */
module Measurements {
  import opened Common
  import opened MacAddresses

  datatype Format = V5 | V6 | E1

  /** Floating-point fields are reals; the timestamp is in nanoseconds since the Unix epoch. */
  datatype Measurement = Measurement(
    mac: MacAddress,
    format: Format,
    timestamp: int,
    temperature: Option<real>,
    humidity: Option<real>,
    pressure: Option<real>,
    battery: Option<real>,
    txPower: Option<int>,
    movementCounter: Option<nat>,
    measurementSequence: Option<nat>,
    acceleration: Option<(real, real, real)>,
    pm1: Option<real>,
    pm25: Option<real>,
    pm4: Option<real>,
    pm10: Option<real>,
    co2: Option<real>,
    vocIndex: Option<real>,
    noxIndex: Option<real>,
    luminosity: Option<real>)
}
