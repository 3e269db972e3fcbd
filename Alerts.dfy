/**
 * Threshold alerts of the readings endpoint: a humidity or temperature
 * reading outside the closed range [0, 50] raises an alert of its own type,
 * humidity first.
 */
module Alerts {

  datatype AlertType = HumiditySensorOutOfRange | TemperatureSensorOutOfRange

  datatype Alert = Alert(alertType: AlertType, message: string)

  const HumidityAlert := Alert(HumiditySensorOutOfRange, "Invalid range of humidity")
  const TemperatureAlert := Alert(TemperatureSensorOutOfRange, "Invalid range of temperature")

  /** The bounds of the valid range, both included. */
  const Lowest: real := 0.0
  const Highest: real := 50.0

  predicate InRange(x: real) {
    Lowest <= x <= Highest
  }

  predicate HasAlert(alerts: seq<Alert>, t: AlertType) {
    exists k :: 0 <= k < |alerts| && alerts[k].alertType == t
  }

  /** The alerts a reading should raise, stated as a reference for
      DeriveAlerts: one alert per reading that leaves the range, humidity
      before temperature. */
  function ExpectedAlerts(humidity: real, temperature: real): (alerts: seq<Alert>)
    ensures |alerts| <= 2
    ensures HasAlert(alerts, HumiditySensorOutOfRange) <==> humidity > 50.0 || humidity < 0.0
    ensures HasAlert(alerts, TemperatureSensorOutOfRange) <==> temperature > 50.0 || temperature < 0.0
    ensures forall k :: 0 <= k < |alerts| ==>
      alerts[k] == if alerts[k].alertType == HumiditySensorOutOfRange then HumidityAlert else TemperatureAlert
    ensures forall j, k :: 0 <= j < k < |alerts| ==>
      alerts[j].alertType == HumiditySensorOutOfRange && alerts[k].alertType == TemperatureSensorOutOfRange
    ensures InRange(humidity) && InRange(temperature) <==> alerts == []
  {
    var humidityAlerts := if InRange(humidity) then [] else [HumidityAlert];
    var temperatureAlerts := if InRange(temperature) then [] else [TemperatureAlert];
    var alerts := humidityAlerts + temperatureAlerts;
    assert !InRange(humidity) ==> alerts[0] == HumidityAlert;
    assert !InRange(temperature) ==> alerts[|alerts| - 1] == TemperatureAlert;
    alerts
  }

  /** Builds the alert list the way the endpoint does: start empty, then
      append an alert for humidity and one for temperature when the reading
      is out of range. */
  method DeriveAlerts(humidity: real, temperature: real) returns (alerts: seq<Alert>)
    ensures alerts == ExpectedAlerts(humidity, temperature)
  {
    alerts := [];
    if humidity > Highest || humidity < Lowest {
      alerts := alerts + [HumidityAlert];
    }
    if temperature > Highest || temperature < Lowest {
      alerts := alerts + [TemperatureAlert];
    }
  }

  /** The bounds themselves are in range; readings just outside them raise
      alerts, humidity's first. */
  lemma AlertExamples()
    ensures ExpectedAlerts(0.0, 50.0) == [] && ExpectedAlerts(30.0, 20.0) == []
    ensures ExpectedAlerts(-5.0, 80.0) == [HumidityAlert, TemperatureAlert]
    ensures ExpectedAlerts(50.5, 20.0) == [HumidityAlert]
    ensures ExpectedAlerts(20.0, -0.1) == [TemperatureAlert]
  {
  }
}
