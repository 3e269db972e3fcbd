# Climate monitor: evaluating a device reading

The readings controller of the climate monitor has one endpoint,
`POST /readings/evaluate`. A
device sends a reading with a temperature, a humidity and the version of its
firmware. It also sends a shared secret in the `x-device-shared-secret`
header. The endpoint decides the reading in three stages, and the first stage
that fails ends the evaluation:

1. **Authentication.** The secret validator service must accept the secret.
   If it does not, the answer is 401 with the detail "Device secret is not
   within the valid range.".
2. **Firmware format.** The firmware version must match the anchored
   Semantic Versioning 2.0.0 pattern, `MAJOR.MINOR.PATCH[-PRERELEASE][+BUILD]`.
   If it does not, the answer is 400. Its error dictionary maps
   `FirmwareVersion` to the one message "The firmware value does not match
   semantic versioning format.".
3. **Alerts.** The answer is 200 with a list of alerts. A humidity reading
   above 50 or below 0 raises `HumiditySensorOutOfRange`. A temperature reading
   outside the same range raises `TemperatureSensorOutOfRange`. The humidity
   alert, when present, comes first.

The project has four modules:

- **`Strings`** cuts text at the first occurrence of a character and splits
  it at every occurrence. `Split` and `Join` are proved inverse.
- **`SemVer`** states the firmware pattern twice. `IsSemVer` is a declarative
  grammar over cuts and splits. `Recognise` is a scanner that reads the text
  one character at a time. It remembers only a small record: the section, two
  counters (identifiers completed, length of the current one) and two flags
  (digits only, leading zero). The counters are unbounded, so this is not a
  finite automaton. `RunCorrect`
  proves that the two agree on every string. `PatternMatches` and `IsMatch`
  add what the pattern's `$` anchor allows: one final line feed.
- **`Alerts`** holds the threshold rule. `ExpectedAlerts` is the reference
  list. `DeriveAlerts` builds the list the way the endpoint does and is proved
  equal to it.
- **`ReadingsController`** holds `EvaluateReading`, which ties the three
  stages together. Its contract gives the outcome in each of the three cases.

## Model

| member | source | states |
|---|---|---|
| Strings.CutAtFirst | ClimateMonitor/Api/Controllers/ReadingsController.cs:49 | Without the separator, the text is returned whole and the separator does not occur in it. Otherwise the text is the part before, the separator, then the part after, and the part before holds no separator. The pattern needs this because a core holds no `-` and neither core nor pre-release holds a `+`, so the first `-` and the first `+` open those sections. |
| Strings.Split | ClimateMonitor/Api/Controllers/ReadingsController.cs:49 | Splitting yields at least one piece, and no piece contains the separator. These are the dot-separated identifiers of each section. |
| Strings.JoinSplit | ClimateMonitor/Api/Controllers/ReadingsController.cs:49 | Joining the pieces of a split with the separator gives back the original text. |
| Strings.SplitJoin | ClimateMonitor/Api/Controllers/ReadingsController.cs:49 | Splitting joined separator-free pieces gives back exactly those pieces. |
| Strings.SplitAppend | ClimateMonitor/Api/Controllers/ReadingsController.cs:49 | Splitting a concatenation fuses the last piece of the left text with the first piece of the right text. Every other piece is unchanged. |
| SemVer.AlphanumericIff | ClimateMonitor/Api/Controllers/ReadingsController.cs:49 | A text matches `\d*[a-zA-Z-][0-9a-zA-Z-]*` iff all its characters are identifier characters and not all of them are digits. |
| SemVer.IdentifierDoneIff | ClimateMonitor/Api/Controllers/ReadingsController.cs:49 | The scanner's three facts about the current identifier decide whether that identifier is valid in its section: its length, whether it is digits only, and whether it starts with `0`. Core takes `0\|[1-9]\d*`. Pre-release also takes the alphanumeric form. Build takes `[0-9a-zA-Z-]+`. |
| SemVer.SegmentDone | ClimateMonitor/Api/Controllers/ReadingsController.cs:49 | A section may end where the scanner says so iff the section's text so far is well formed. The core must have exactly three identifiers. |
| SemVer.SegmentDeadDot | ClimateMonitor/Api/Controllers/ReadingsController.cs:49 | When the scanner refuses a dot, no continuation of the section is well formed. |
| SemVer.SegmentDeadChar | ClimateMonitor/Api/Controllers/ReadingsController.cs:49 | When the scanner refuses a character the section does not allow, no continuation of the section is well formed. |
| SemVer.StepCorrect | ClimateMonitor/Api/Controllers/ReadingsController.cs:49 | One scanner step keeps the state a faithful summary of the text read so far. The scanner stops only when no version starts with that text. |
| SemVer.FinishCorrect | ClimateMonitor/Api/Controllers/ReadingsController.cs:49 | At the end of the text, the scanner accepts iff the text is a version. |
| SemVer.RunCorrect | ClimateMonitor/Api/Controllers/ReadingsController.cs:49 | Started in a state that summarises the text read so far, the scanner accepts iff the whole text is a version. |
| SemVer.ScannerDecides | ClimateMonitor/Api/Controllers/ReadingsController.cs:49 | Run from the start, the scanner decides the Semantic Versioning grammar. |
| SemVer.Recognise | ClimateMonitor/Api/Controllers/ReadingsController.cs:49-52 | The executable check accepts exactly the texts of the declarative grammar `IsSemVer`. |
| SemVer.IsMatch | ClimateMonitor/Api/Controllers/ReadingsController.cs:52 | The executable match accepts exactly what the anchored pattern matches (`PatternMatches`): a version, or a version followed by one final line feed. |
| SemVer.NoLineFeed | ClimateMonitor/Api/Controllers/ReadingsController.cs:49 | No text containing a line feed is a version. |
| SemVer.OneFinalLineFeed | ClimateMonitor/Api/Controllers/ReadingsController.cs:49 | `$` matches before one final line feed: `v` followed by a line feed matches iff `v` is a version. |
| SemVer.TwoFinalLineFeeds | ClimateMonitor/Api/Controllers/ReadingsController.cs:49 | A text ending in two line feeds never matches. |
| SemVer.VersionCoreExamples | ClimateMonitor/Api/Controllers/ReadingsController.cs:49 | `1.0.0` and `2.1.0` are versions. `1.0`, `01.0.0` and the empty text are not. |
| SemVer.PreReleaseExamples | ClimateMonitor/Api/Controllers/ReadingsController.cs:49 | `1.0.0-alpha.1` and `1.0.0-0a` are versions. `1.0.0-` (empty pre-release) and `1.0.0-01` (leading zero) are not. |
| SemVer.BuildMetadataExamples | ClimateMonitor/Api/Controllers/ReadingsController.cs:49 | `1.0.0+build.05` and `1.0.0+build.5` are versions. `1.0.0+` and `bad-version` are not. |
| Alerts.ExpectedAlerts | ClimateMonitor/Api/Controllers/ReadingsController.cs:54-64 | There are at most two alerts. A humidity alert is present iff humidity > 50 or < 0, and likewise for temperature. Each alert carries its type's message. Humidity comes before temperature. The list is empty iff both readings lie in [0, 50]. |
| Alerts.DeriveAlerts | ClimateMonitor/Api/Controllers/ReadingsController.cs:54-64 | Starting from an empty list and appending per reading yields exactly `ExpectedAlerts`. |
| Alerts.AlertExamples | ClimateMonitor/Api/Controllers/ReadingsController.cs:56-63 | Readings of 0 and 50 raise nothing, and neither do 30 and 20. Humidity -5 with temperature 80 raises both alerts, humidity first. A single reading out of range raises only its own alert. |
| ReadingsController.EvaluateReading | ClimateMonitor/Api/Controllers/ReadingsController.cs:38-84 | A rejected secret gives Unauthorized with the fixed detail, before the firmware is looked at. An accepted secret with a firmware version the pattern does not match gives InvalidFirmware, whose errors map `FirmwareVersion` to the one format message. Otherwise the outcome is Ok with exactly `ExpectedAlerts` of the reading. The HTTP status is 401 iff the secret is rejected, 400 iff the secret is accepted and the firmware does not match, and 200 iff both are accepted. |

## Left out

- ASP.NET plumbing is not modelled: routing, model binding of the JSON body, and the `ActionResult`/`ProblemDetails` objects. The outcome is a datatype, and `StatusCode` gives its HTTP status.
- The controller's constructor is not modelled. It only stores its dependency-injected services. `AlertService` is injected but never used by the endpoint.
- The device secret validator service is not part of this model. Its check is the parameter `validateDeviceSecret`, a predicate on the secret.
- The `x-device-shared-secret` header is taken as a string. An absent header, which the source would read as `null`, is not modelled separately. It reaches the validator as whatever string the caller supplies.
- A `null` firmware version is not modelled. `Regex.IsMatch` would throw on it. The model's version is always a string.
- SemVer.IsDigit: `\d` is read as the ASCII digits `0`-`9`. Without the ECMAScript option, .NET's `\d` also matches other Unicode decimal digits, so the source accepts some versions, e.g. with Arabic-Indic digits, that the model rejects.
- The file declaring `DeviceReadingRequest` is not part of this model, so the C# numeric type of the readings is not modelled. Temperature and humidity are exact reals. Rounding, and NaN if the type is a floating-point one, are not modelled.
