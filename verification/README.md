# Path fuzzing component — Dafny model

This project models the **Path component** of nuclei's request fuzzer (`component.Path`,
`pkg/fuzz/component/path.go`). A component exposes one part of an HTTP request as key-addressable
fields that a fuzzing driver can enumerate and rewrite. For Path, that part is the URL path.
`Parse` stores the request and a fresh `Value` built from `req.URL.Path`, then decodes the path with
the raw data format. `Iterate`, `SetValue` and `Delete` work on the decoded fields. `Rebuild` encodes
the fields again and writes the result into a clone of the stored request. When the structured path
update fails, it writes the result into `URL.RawPath` instead.

The model is a functional state machine. `PathComponent.Path` is either `Unparsed` (as `NewPath`
leaves it) or `Loaded(req, value)`, and every method is a pure function from a state to a new state
and Go's return values. The collaborators are not part of this model, so they are parameters:

- the codec registry (`dataformat.Get`) is a function from format names to optional codecs;
- a codec is a pair of `decode` / `encode` function values;
- `(*Request).UpdateRelPath` on the clone is a `PathUpdater` that may fail;
- the driver's callback to `Iterate` is a function returning an optional error.

`value.go` is not part of this model either. Module `Values` states the behaviour of a Value
that the model assumes. `SetParsedValue` and `Delete` report true exactly when the key exists. A
failed call changes nothing, and `SetParsedValue` never inserts a key. `Encode` returns the raw
string while nothing has been decoded. After a decode it goes through the codec registered under the
recorded format, and a format with no registered codec is an error.

Modules: `Wrappers` (Option, Result), `Errors`, `Http` (URL and request), `DataFormat` (fields,
codecs, registry), `Values`, `PathComponent` (the six methods), and `Lifecycle` (sequences of calls).

`SetValue` reports `ErrSetValue`, not `ErrKeyNotFound` (path.go:58). Only `Delete` reports
`ErrKeyNotFound` (path.go:66). `Iterate` ranges over a Go map (path.go:46), so the visiting order is a
parameter: any enumeration of the keys without repeats.

## Model

| member | source | states |
|---|---|---|
| PathComponent.Name | pkg/fuzz/component/path.go:26-28 | The name is always `RequestPathComponent`, whatever the component's state. |
| PathComponent.Parse | pkg/fuzz/component/path.go:32-42 | Parse always stores the new request and a Value whose raw form is its URL path. The earlier state has no effect on the result. A decode failure returns `(false, err)` with the codec's own error and records no fields or format. A successful decode records exactly the decoded fields with format `RawDataFormat` and returns `(true, nil)`. `handled` is true exactly when there is no error. |
| PathComponent.Iterate | pkg/fuzz/component/path.go:45-52 | The keys visited are a prefix of the enumeration: each is a parsed key and none repeats. Every callback before the last returned nil. With an error, the last callback returned exactly that error and no later key was visited. Without one, every key was visited. The result is nil exactly when the callback accepts every entry, for any visiting order. |
| PathComponent.SetValue | pkg/fuzz/component/path.go:56-61 | Returns `ErrSetValue` exactly when the key is absent and nil exactly when it is present. On failure the component is unchanged. On success only that key's value changes, to the new string. The keys, raw form, format and stored request stay the same. |
| PathComponent.Delete | pkg/fuzz/component/path.go:64-69 | Returns `ErrKeyNotFound` exactly when the key is absent and nil exactly when it is present. On failure the component is unchanged. On success exactly that key is removed, and the other entries, raw form, format and stored request stay the same. |
| PathComponent.Rebuild | pkg/fuzz/component/path.go:73-83 | An encoding failure returns no request and the encoder's error wrapped with the context message. Once encoding succeeds, Rebuild always succeeds. If the updater reports no error, the result is the clone as the updater left it. Otherwise the updater's error is dropped, and the result differs from that clone only in `URL.RawPath`, which holds the encoded string. The component state is not an output, so it is unchanged. |
| PathComponent.ParseThenRebuild | pkg/fuzz/component/path.go:33-82 | Rebuild right after Parse, with no edits in between, succeeds and gives back the original path. Two hypotheses are needed: the raw codec round-trips on that path, and the updater installs the path it is given when it reports no error. The path comes back as the clone's path, or else as the raw path of the clone the failed updater left. This also holds when the decode failed. |
| PathComponent.FailedEditKeepsRebuild | pkg/fuzz/component/path.go:56-83 | A rejected SetValue or Delete leaves Rebuild's output exactly as it was before the call. |
| PathComponent.SetValueVisibleOnce | pkg/fuzz/component/path.go:45-61 | After a successful SetValue, every possible iteration order contains the key exactly once, and the key holds the new string. |
| PathComponent.IterateAfterSetValue | pkg/fuzz/component/path.go:45-61 | A successful SetValue followed by Iterate visits a prefix of the enumeration, and the callback meets the key at most once. If the iteration ends without error, it visited every key and called the callback on the key exactly once with the new string, and the callback accepted it. If the iteration stopped on the key, the returned error is exactly the callback's error for the key and the new string. |
| Lifecycle.Step | pkg/fuzz/component/path.go:32-69 | Any Parse, SetValue or Delete call leaves a well-formed, loaded component. |
| Lifecycle.Run | pkg/fuzz/component/path.go:32-69 | A sequence of calls keeps the component well-formed. It is loaded afterwards exactly when it was loaded before or at least one call was made. |
| Lifecycle.ParseDiscardsHistory | pkg/fuzz/component/path.go:33-34 | The state after a sequence of calls equals the state reached from a fresh component by the calls from any Parse onward. Nothing from before that Parse survives. |
| Lifecycle.SameHistoryAfterParse | pkg/fuzz/component/path.go:33-34 | Two components of any prior state end in the same state when given the same calls starting with a Parse. |
| Values.SetParsedValue | pkg/fuzz/component/path.go:57 | Reports true exactly when the key exists. A false report changes nothing. A true report replaces only that key's value with the string, and never adds a key. |
| Values.Delete | pkg/fuzz/component/path.go:65 | Reports true exactly when the key exists. A false report changes nothing. A true report removes exactly that key and keeps the other entries. |
| Values.DeleteIdempotent | pkg/fuzz/component/path.go:64-68 | Deleting the same key a second time reports failure and changes nothing. |
| Http.WithRawPath | pkg/fuzz/component/path.go:80 | The fallback write sets `URL.RawPath` to the encoded string and leaves every other field of the clone unchanged. |

## Left out

- The internals of `retryablehttp.Request`: a request is an immutable record, so `Clone` is the value itself. `UpdateRelPath(encoded, true)` changes the clone in place and returns an error. It is the `PathUpdater` parameter, which yields the clone as the call leaves it together with the error. What it does to the clone is unconstrained, even when it fails, except in the hypothesis of `ParseThenRebuild`.
- The `dataformat` codecs and the `dataformat.Get` registry are parameters. No decode/encode round trip is assumed beyond the explicit `RoundTripsOn` hypothesis. The registry is required to hold `RawDataFormat`, as the Go code would otherwise dereference nil.
- Values.NewValue, Values.SetParsed, Values.Encode: these state the assumed behaviour of `NewValue`, `SetParsed` and `Encode` in `value.go`, which is not part of this model. A fresh Value holds only its raw string. `SetParsed` records the fields and format as given. `Encode` yields the raw string before a decode, the registered codec's output after one, and an error for an unregistered format. `Values.EncodeUndecoded` and `Values.EncodeAfterDecode` connect them: an undecoded Value encodes to its raw string, and a decoded one does too when its codec round-trips on it.
- Values.SetParsedValue: "false exactly when the key is absent" is an assumption, because `value.go` is not modelled. The separate `ErrSetValue` sentinel (path.go:58) suggests the real Value may also refuse a present key, for instance when the string does not fit the stored value's type. Such refusals are not modelled, so `PathComponent.SetValue` on a present key always succeeds here.
- The constants `RequestPathComponent`, `RawDataFormat`, `ErrSetValue` and `ErrKeyNotFound` are defined in files that are not part of this model. The names are assumed to hold `"path"` and `"raw"` respectively, and the errors are distinct sentinels.
- Calls before any `Parse` (a nil `value` or `req` in Go, which panics) are excluded by the precondition `Loaded?`.
- Error message texts: the context of `errors.Wrap` is kept as a constant. Codec, callback and library errors are arbitrary `Error` values that the model does not inspect. They may even equal the component's own sentinels.
- `context.Background()`: plumbing with no behaviour.
- Go map iteration order is random at run time. `Iterate` takes any repeat-free enumeration of the keys as a parameter, and the model promises nothing about which order is used.
- Side effects of the driver's callback: it is a pure function here, and `Iterate` returns the list of keys it was called on instead. Callbacks that call back into the component are excluded. In Go, such a callback may call `SetValue` or `Delete` during the `range` over the live map (path.go:46), and a key deleted before it is reached is then skipped.
- Concurrency: there is none in this code, and one owner per component is assumed.
- `PathComponent.NewPath` has no contract: it only yields the `Unparsed` state.
