# Inverter telemetry bridge — Dafny model

The bridge accepts one TCP connection from a solar inverter. The inverter
sends JSON status objects with noise between them, and the bridge
republishes the readings as Prometheus metrics. This project models the
three pieces of logic in `main.go`:

- **Frame extractor** (`frames.dfy`, module `Frames`). This is the brace
  scan in `main`. It discards bytes up to the next `{`, pushes that `{` back,
  and reads up to and including the next `}`. It does not track nesting or
  strings. The connection is modelled as the finite byte sequence it
  delivers. Running out of bytes (`Failure(NoOpenBrace)` /
  `Failure(NoCloseBrace)`) stands for the read error on which the program
  panics. `NextFrame` is the functional definition. `ScanFrame` is the
  byte-by-byte skip loop, followed by `ReadBytes('}')` written as a loop,
  and it is proved equal to `NextFrame`.
- **Measurement publisher** (`publisher.dfy`, module `Publisher`). This is
  `setMeasurements`, run against an immutable `Metrics` record. The record
  holds:
  - the last value written to each gauge (the two input gauges have one
    value per PV array);
  - the `Measuring` flag (`measuring`), where `TotalEnergyValue` is
    `totalEnergy`;
  - the set of registered metrics, which is what a scrape can see.

  Readings are `real`.
- **Ingestion loop** (`ingest.dfy`, module `Ingest`). Each iteration
  extracts a frame and decodes it. A frame that does not decode is skipped.
  A frame that decodes is applied, and the scrape server is started after
  the first such frame (the `started` flag, here `serving`). `json.Unmarshal`
  is an opaque parameter `decode: seq<byte> -> Option<seq<real>>`.

The publication invariant is `Publisher.Valid`. It says the four always-on
metrics are registered, and output voltage, total energy and grid frequency
are registered exactly while `measuring` holds. It holds at start and every
step preserves it. Under it, the re-registration in `setMeasurements` never
meets a metric that is already registered, so `MustRegister` cannot panic.

The code tests `data[50] > 0`, so a negative reading suppresses the
grid-tied metrics just as zero does (`Publisher.GridUp`).

## Model

| member | source | states |
|---|---|---|
| Frames.NextFrame | main.go:123-139 | On success: the skipped bytes hold no `{`. The frame starts with `{`, ends with its first `}`, and has no other `}`. Skipped bytes, frame and remainder put back together give the input, and the remainder is shorter than the input. It fails with `NoOpenBrace` exactly when the input has no `{`. |
| Frames.FrameSplitUnique | main.go:123-136 | Those conditions determine the result: any split of the input that meets them is the one `NextFrame` returns. |
| Frames.NextFrameFailsIffNoSplit | main.go:124-139 | Extraction fails, which stands for the panic, exactly when no valid split of the input exists. |
| Frames.NoCloseBraceCharacterized | main.go:136-139 | Extraction fails with `NoCloseBrace` exactly when the input holds a `{` but no `}` follows any `{`. |
| Frames.ScanFrame | main.go:123-139 | The skip loop (read to `{` and push it back), followed by `ReadBytes('}')` written as a loop, returns exactly the functional `NextFrame` result. |
| Frames.AllFrames | main.go:122-139 | Every frame the outer loop extracts before the stream runs out starts with `{` and ends with its first `}`. |
| Frames.AllFramesOfWellFormedStream | main.go:122-139 | A stream of N frames `{body}` is read as exactly those N frames, in order. Here each body has no `}`, each frame is preceded by noise with no `{`, and the stream ends in a tail from which no further frame can be extracted (for instance stray `}` noise). |
| Publisher.SetMeasurements | main.go:80-106 | Fewer than 51 readings: the state is unchanged. Otherwise: input currents/voltages, output current and output power take readings 0-4 and 6 whatever reading 50 is. `measuring` becomes `data[50] > 0`. If it is positive, output voltage, total energy and frequency take readings 5, 9 and 50 and are registered. If not, they keep their previous values and are unregistered. Always-on registration never changes, and the invariant is preserved. |
| Publisher.NamesDistinct | main.go:18-61 | The seven metrics have seven distinct exposition names, which the registration of all seven at once (main.go:68) needs. |
| Publisher.InitialValid | main.go:64-68 | At start `measuring` holds, all seven metrics are registered, and the invariant holds. |
| Publisher.ValidMeansPublishingIffMeasuring | main.go:90-104 | Under the invariant, the grid-tied metrics are visible exactly while `measuring` holds. When `measuring` is false none of them is registered, so re-registering cannot collide. |
| Publisher.SetMeasurementsIdempotent | main.go:80-106 | Applying the same readings twice gives the same state as applying them once. |
| Publisher.ApplyAll | main.go:80-106 | Applying a sequence of records one after another preserves the invariant. |
| Publisher.ApplyAllFollowsLastComplete | main.go:80-106 | For any sequence of records, if none has 51 readings the state is unchanged. Otherwise the grid-tied metrics are visible, and `measuring` holds, exactly when the most recent complete record's frequency is positive. The always-on values are that record's readings, and so are the grid-tied values when its frequency is positive. |
| Publisher.SampleFrameApplied | main.go:71-106 | On the sample frame quoted in the source, applied from the start state, readings 0-6, 9 and 50 reach the intended gauges: 49.98 Hz frequency, 236.3 V output voltage, 6.7 kWh total energy, with the grid-tied metrics visible. The same frame with frequency 0 still updates the always-on values but hides the grid-tied ones, which keep their previous values. |
| Ingest.HandleFrame | main.go:140-151 | A frame that fails to decode leaves metrics and server state unchanged. A decoded frame's readings are applied and the server is running afterwards. |
| Ingest.Run | main.go:122-152 | The loop preserves the invariant and never stops a running server. |
| Ingest.RunAppliesDecodedFrames | main.go:122-152 | The final metrics are the decoded frames' readings applied in stream order; frames that fail to decode are skipped and later frames are still applied. The server is running exactly when it already was or some frame decoded. |
| Ingest.RunFromStartFollowsLastComplete | main.go:64-152 | From process start, the final state satisfies the invariant. With no complete record it equals the initial state. Otherwise the grid-tied metrics are visible exactly when the last complete record's frequency is positive. |

## Left out

- TCP listeners, `Accept` and the panics on listen errors (main.go:112-120): I/O. The connection is the finite byte sequence it delivers. The end of that sequence stands for every read error.
- The HTTP handler and `go server.Serve` (main.go:110-111, 147-151): networking and a goroutine. Only the `started` flag is modelled (`Session.serving`). Scrapes running concurrently with ingestion are not modelled.
- `json.Unmarshal` (main.go:140-141): a library parser, abstracted as a total `decode` function. The `type`, `SN` and `ver` fields are not modelled, since nothing reads them.
- Prometheus internals: `GaugeVec` label children (which are absent from a scrape until first set), the `CounterFunc` indirection to `TotalEnergyValue`, and `MustRegister`'s panic on duplicate registration. The registry is a set of metric names, and the invariant shows the duplicate case cannot arise.
- IEEE-754 semantics: readings are `real`. In Go, `data[50] > 0` is false for NaN, which `real` cannot express; a NaN reading would suppress the grid-tied metrics.
- Logging with `fmt.Print*` (main.go:142, 146, 148): output only.
