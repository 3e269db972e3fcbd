/**
 * The readings endpoint: authenticate the device by its shared secret, check
 * the firmware version's syntax, then derive the threshold alerts. Each stage
 * ends the evaluation when it fails, so the outcome is exactly one of
 * Unauthorized, InvalidFirmware and Ok.
 */
module ReadingsController {
  import SemVer
  import opened Alerts

  /** A reading as the device submits it. */
  datatype DeviceReadingRequest = DeviceReadingRequest(temperature: real, humidity: real, firmwareVersion: string)

  /** The logical result of an evaluation. InvalidFirmware carries the
      field-keyed error messages of the bad request. */
  datatype Outcome =
    | Unauthorized(detail: string)
    | InvalidFirmware(errors: map<string, seq<string>>)
    | Ok(alerts: seq<Alert>)

  const UnauthorizedDetail := "Device secret is not within the valid range."
  const FirmwareField := "FirmwareVersion"
  const FirmwareFormatMessage := "The firmware value does not match semantic versioning format."

  /** The HTTP status each outcome is answered with. */
  function StatusCode(outcome: Outcome): int {
    match outcome
    case Unauthorized(_) => 401
    case InvalidFirmware(_) => 400
    case Ok(_) => 200
  }

  /** Evaluates one reading. `validateDeviceSecret` stands for the device
      secret validator service, `deviceSecret` for the value of the
      `x-device-shared-secret` header. */
  method EvaluateReading(validateDeviceSecret: string -> bool, deviceSecret: string, request: DeviceReadingRequest)
    returns (outcome: Outcome)
    ensures !validateDeviceSecret(deviceSecret) ==> outcome == Unauthorized(UnauthorizedDetail)
    ensures validateDeviceSecret(deviceSecret) && !SemVer.PatternMatches(request.firmwareVersion) ==>
      outcome == InvalidFirmware(map[FirmwareField := [FirmwareFormatMessage]])
    ensures validateDeviceSecret(deviceSecret) && SemVer.PatternMatches(request.firmwareVersion) ==>
      outcome == Ok(ExpectedAlerts(request.humidity, request.temperature))
    ensures StatusCode(outcome) == 401 <==> !validateDeviceSecret(deviceSecret)
    ensures StatusCode(outcome) == 400 <==>
      validateDeviceSecret(deviceSecret) && !SemVer.PatternMatches(request.firmwareVersion)
    ensures StatusCode(outcome) == 200 <==>
      validateDeviceSecret(deviceSecret) && SemVer.PatternMatches(request.firmwareVersion)
  {
    if !validateDeviceSecret(deviceSecret) {
      return Unauthorized(UnauthorizedDetail);
    }
    if SemVer.IsMatch(request.firmwareVersion) {
      var alerts := DeriveAlerts(request.humidity, request.temperature);
      return Ok(alerts);
    } else {
      var errors: map<string, seq<string>> := map[];
      var firmwareErrors := new string[1];
      firmwareErrors[0] := FirmwareFormatMessage;
      errors := errors[FirmwareField := firmwareErrors[..]];
      assert firmwareErrors[..] == [FirmwareFormatMessage];
      return InvalidFirmware(errors);
    }
  }
}
