# racklight backlight model

A Dafny model of the brightness control core of racklight, a command-line tool
that sets a display backlight through the Linux sysfs interface. The modelled
code is `src/backlight.rs`: the `Backlight` struct, the `Ops` enum and the
methods `new`, `get`, `set`, `update` and `set_brightness`.

One `set_brightness(op, value)` call does four things:

1. It re-reads the live `brightness` and `max_brightness` control files into
   `cur_bright` and `max_bright` (`update`).
2. It computes a target: `cur + value` for `Increase`, `cur - value` for
   `Decrease`, `value` for `Set`.
3. It saturates the target with `.max(min_bright).min(max_bright)`.
4. It writes the result to `brightness` as a decimal string (`set`).

## Files

- `wrappers.dfy` (module `Wrappers`): `Option`, `Result` and `Outcome`. These
  stand in for the `unwrap` panics of the Rust code.
- `decimal.dfy` (module `Decimal`): Rust's `i128` as the subset type `Int128`.
  It also has `str::trim` (Unicode White_Space at both ends), `i128` parsing
  (`ParseInt`: an optional `+`/`-`, then at least one ASCII digit, in range)
  and `i128::to_string` (`ToDecimal`). The round trip between the last two is
  proved here.
- `sysfs.dfy` (module `Sysfs`): the device store. A class `FileSystem` holds a
  `files` map (path to file contents) and a `writable` set (paths that may be
  opened for writing). Its methods are `fs::read_to_string` and
  `OpenOptions::new().write(true).open(..)` followed by `write_all`.
- `backlight.dfy` (module `Backlight`): `Op`, `Error`, `Join` (`Path::join`)
  and the specification functions. `ReadField` is what `get` yields. `Target`
  is the operation's match. `Clamp` is the saturation. `NewBrightness` checks
  for overflow and then clamps. `SetBrightnessResult` is what one call writes,
  or the first error it stops on. `StoreAfter` is the store after one call.
  Also here is the class `Backlight`, with fields `brightPth`, `curBright`,
  `minBright` and `maxBright` and methods `Get`, `SetField`, `Update` and
  `SetBrightness`. Each method is proved against those functions.
- `properties.dfy` (module `BacklightProperties`): lemmas about one call and
  about consecutive calls. They cover bounds, which files are touched,
  reading back what was written, the live re-read, and idempotence of `Set`.
- `scenarios.dfy` (module `Scenarios`): example device directories and runs
  on them. A client method `Session` runs the documented library example,
  `new("acpi_video0")` and then `Set(20)`, and follows it with an
  `Increase(70)` that the example does not contain.

Modelling decisions:

- The device directory is the `files` map of a `FileSystem` object. `get` looks
  up an entry, and `set` replaces one. A write replaces the whole value, as a
  sysfs attribute file does.
- Every panic becomes an `Error`:
  - a missing file, on read or open: `Io(path, NotFound)`;
  - a file that may not be opened for writing: `Io(path, PermissionDenied)`;
  - trimmed contents that do not parse as an `i128`: `Parse(path, contents)`;
  - `cur_bright ± value` leaving the `i128` range: `Overflow`.

  Where the Rust code would abort part-way, the model keeps the effects that
  happened before the failing step. For example, if `max_brightness` fails to
  parse, `curBright` has already been updated.
- `Path::new("/sys/class/backlight").join(name)` follows `PathBuf::push` on
  `/`-separated paths. An absolute name replaces the base. Otherwise one `/`
  separates the two, unless the base is empty or already ends in `/`.
- `minBright` is 0 from construction on, and nothing assigns it. The lemmas
  still take any floor `minB`, so they also cover a floor above the device's
  maximum. In that case the code stores the maximum, because `.min(max)` is
  applied last.

Three details of the Rust code decide the model's behaviour:

- `set` opens `brightness` with `write(true)` and no `truncate`. The model
  assumes a write replaces the whole value, as it does on a sysfs attribute.
- The clamp is `.max(min).min(max)`. Because `.min(max)` is applied last, the
  upper bound wins when the bounds cross.
- `get` parses a full `i128`, a leading sign included, so negative contents
  read back as negative values.

## Model

| member | source | states |
|---|---|---|
| Decimal.TrimStart | src/backlight.rs:74 | the result is no longer than the input and does not start with white space |
| Decimal.TrimEnd | src/backlight.rs:74 | the result is a prefix of the input and does not end with white space |
| Decimal.TrimStartRemovesWhitespace | src/backlight.rs:74 | the leading trim removes a prefix made only of white space |
| Decimal.TrimEndRemovesWhitespace | src/backlight.rs:74 | the trailing trim removes a suffix made only of white space |
| Decimal.IsWhitespace | src/backlight.rs:74 | the characters with the Unicode White_Space property that `str::trim` removes; specified by TrimStartRemovesWhitespace, TrimEndRemovesWhitespace and Trim |
| Decimal.Trim | src/backlight.rs:74 | the result has no white space at either end, and a string with none at its ends is returned unchanged |
| Decimal.TrimTrailingNewline | src/backlight.rs:72-74 | the newline after a value read from a control file is removed by the trim |
| Decimal.ParseDigits | src/backlight.rs:75 | the value of a run of ASCII digits, most significant first; ParseDigitsAccepts says when it fails, DigitsRoundTrip that it inverts NatToDigits |
| Decimal.ParseDigitsAccepts | src/backlight.rs:75 | the digit parser fails exactly when some character is not an ASCII digit |
| Decimal.ParseIntAccepts | src/backlight.rs:75-76 | parsing succeeds exactly for an optional sign, then at least one digit, with the value in the i128 range; a negative value needs a leading '-' |
| Decimal.ParseInt | src/backlight.rs:75 | `.parse::<i128>()`; ParseIntAccepts gives exactly the texts it accepts, ParseToDecimal and ParseToDecimalOutOfRange its round trip with `to_string`, RenderParsedText the round trip from text in the form `to_string` writes |
| Decimal.NatToDigits | src/backlight.rs:87 | the rendering of a natural number is non-empty, starts and ends with a digit, and has no leading zero unless the number is 0 |
| Decimal.NatToDigitsAreDigits | src/backlight.rs:87 | every character of the rendering of a natural number is an ASCII digit |
| Decimal.DigitsRoundTrip | src/backlight.rs:75-87 | parsing the digits rendered for n gives back n |
| Decimal.ToDecimal | src/backlight.rs:87 | the text written is non-empty, has no white space at either end, ends in a digit, and starts with '-' exactly when the value is negative |
| Decimal.ToDecimalDigits | src/backlight.rs:87 | past an optional '-', `to_string` writes a non-empty run of ASCII digits with no leading zero unless the value is 0, and never a '+' |
| Decimal.ParseToDecimal | src/backlight.rs:72-87 | trimming and then parsing what `to_string` wrote gives back every i128 value |
| Decimal.ParseToDecimalOutOfRange | src/backlight.rs:72-87 | a value outside the i128 range cannot be read back from its text, so the round trip fails for exactly those values |
| Decimal.ParseThenRender | src/backlight.rs:72-87 | any text that parses re-renders to a canonical text that parses to the same value |
| Decimal.RenderParsedDigits | src/backlight.rs:75-87 | a digit run with no leading zero (other than "0" itself) is exactly the rendering of the value it parses to |
| Decimal.RenderParsedText | src/backlight.rs:75-87 | a text that parses and is in the form `to_string` writes (no '+', no leading zero, not "-0") is written back by `to_string` character for character |
| Sysfs.FileSystem.ReadToString | src/backlight.rs:72-73 | reading yields a file's whole contents, or NotFound when the path has no file |
| Sysfs.FileSystem.Write | src/backlight.rs:81-87 | opening without create fails with NotFound on a missing file and with PermissionDenied on a file that is not writable, changing nothing; otherwise exactly that file's contents become the data |
| Backlight.Join | src/backlight.rs:59 | an absolute name replaces the base; a relative name follows the base, with one '/' between them unless the base is empty or already ends in '/' |
| Backlight.Op | src/backlight.rs:33-40 | the three operations of `Ops`: Increase, Decrease and Set; their targets are given by ResultByOp |
| Backlight.FieldPathsDistinct | src/backlight.rs:92-93 | `brightness` and `max_brightness` of one directory are different files |
| Backlight.ReadField | src/backlight.rs:70-77 | what `get` yields: NotFound for a missing file, a parse error carrying the contents, or the parsed value; Backlight.Backlight.Get is proved equal to it, and WriteThenRead and WriteKeepsOtherField specify it |
| Backlight.Target | src/backlight.rs:113-117 | the unclamped value of the `match` on the operation; NewBrightness and ResultByOp state what is stored from it |
| Backlight.Clamp | src/backlight.rs:120 | the result never exceeds the upper bound; it is at least the lower bound when the bounds are ordered, equals the upper bound when they cross, equals the value when already in range, and saturates at whichever bound the value crosses |
| Backlight.NewBrightness | src/backlight.rs:113-120 | the computation fails with Overflow exactly when `cur ± value` leaves i128; otherwise the result lies within the bounds, and is the unclamped target when that is in range |
| Backlight.SetBrightnessResult | src/backlight.rs:108-123 | what one `set_brightness` call writes, or the first error it stops on, in the order of the Rust code; specified by ResultFromReads, ResultOk, ResultByOp, WrittenWithinBounds and UnwritableFails, and Backlight.Backlight.SetBrightness is proved against it |
| Backlight.StoreAfter | src/backlight.rs:108-123 | the store after one `set_brightness` call; specified by StoreAfterOk, OnlyBrightnessWritten, StoredValueReadsBack and SetIdempotent, and Backlight.Backlight.SetBrightness is proved to leave it |
| Backlight.ResultFromReads | src/backlight.rs:108-123 | when both control files read and `brightness` is writable, the call writes what the operation computes from the two live values |
| Backlight.ResultOk | src/backlight.rs:108-123 | a call succeeds only if both control files read and `brightness` exists and is writable |
| Backlight.StoreAfterOk | src/backlight.rs:123 | after a successful call the store differs only in `brightness`, which holds the decimal text of the value computed |
| Backlight.Backlight.constructor | src/backlight.rs:54-67 | the path is the backlight root joined with the name, and all three brightness fields are 0; nothing is read |
| Backlight.Backlight.Get | src/backlight.rs:70-77 | yields the trimmed and parsed contents of the control file, or the I/O or parse error that `unwrap` would panic on |
| Backlight.Backlight.SetField | src/backlight.rs:79-88 | writes the decimal text of the value to an existing, writable control file and changes no other file; on failure nothing changes |
| Backlight.Backlight.Update | src/backlight.rs:90-94 | `curBright` becomes the live `brightness` and then `maxBright` the live `max_brightness`; the store, the path and `minBright` are untouched |
| Backlight.Backlight.SetBrightness | src/backlight.rs:108-124 | the store afterwards is the old store with `brightness` set to the clamped target computed from the values re-read in this call, not from the cached fields; it fails exactly as the specification does; the fields are refreshed as by `Update` |
| BacklightProperties.WriteThenRead | src/backlight.rs:70-88 | reading a control file right after writing an i128 to it yields that value |
| BacklightProperties.StoreAfterWrites | src/backlight.rs:113-123 | given the two values read, a call that does not overflow replaces `brightness` with the value computed from them |
| BacklightProperties.WriteKeepsOtherField | src/backlight.rs:79-94 | writing one control file does not change what a different one reads |
| BacklightProperties.OnlyBrightnessWritten | src/backlight.rs:123 | a call keeps the same set of files and every file except `brightness` unchanged, so `max_brightness` reads the same |
| BacklightProperties.StoredValueReadsBack | src/backlight.rs:120-123 | after a successful call, `brightness` reads back as exactly the value computed |
| BacklightProperties.WrittenWithinBounds | src/backlight.rs:120 | the value written is at most the live maximum; it is at least the floor when the floor does not exceed the maximum, and equals the maximum when the floor is above it |
| BacklightProperties.UnwritableFails | src/backlight.rs:81-84 | when `brightness` may not be opened for writing, a call fails with PermissionDenied and the store is unchanged |
| BacklightProperties.ResultByOp | src/backlight.rs:113-120 | `Set(v)` stores `Clamp(v, min, M)`; `Increase(v)` and `Decrease(v)` store `Clamp(c ± v, min, M)` from the live `c`, or fail with Overflow |
| BacklightProperties.DecreaseSaturatesAtMin | src/backlight.rs:115-120 | a decrement from a non-negative brightness never overflows, and one that goes past the floor stores the floor |
| BacklightProperties.IncreaseSaturatesAtMax | src/backlight.rs:114-120 | an increment that reaches the live maximum stores the maximum |
| BacklightProperties.NextCallSeesWrite | src/backlight.rs:90-123 | a second call computes from the value the first one wrote and from the unchanged maximum |
| BacklightProperties.SetAgainSameResult | src/backlight.rs:113-123 | once `Set(v)` succeeds, repeating it computes the same value |
| BacklightProperties.SetIdempotent | src/backlight.rs:113-123 | `Set(v)` twice in a row leaves the same store, and gives the same result, as `Set(v)` once |
| Scenarios.DeviceReads | src/backlight.rs:90-94 | a directory holding decimal values, with or without a trailing newline, reads back as those values |
| Scenarios.DeviceResult | src/backlight.rs:108-123 | on such a directory with floor 0, a call computes from the two values stored there |
| Scenarios.DeviceStep | src/backlight.rs:108-123 | a successful call on such a directory leaves one of the same shape, holding the new brightness and the old maximum |
| Scenarios.DeviceWrite | src/backlight.rs:123 | writing `brightness` of such a directory keeps its shape |
| Scenarios.SetBelowZero | src/backlight.rs:116-120 | with maximum 255, `Set(-5)` stores 0 |
| Scenarios.SetAboveMax | src/backlight.rs:116-120 | with maximum 255, `Set(300)` stores 255 |
| Scenarios.IncreasePastMax | src/backlight.rs:114-120 | with maximum 100 and current 50, `Increase(70)` stores 100 |
| Scenarios.DecreasePastZero | src/backlight.rs:115-120 | with maximum 100 and current 10, `Decrease(50)` stores 0 |
| Scenarios.DecreaseByMost | src/backlight.rs:115-120 | with current 10, the largest i128 decrement stores 0 rather than wrapping |
| Scenarios.ReadOnlyBrightness | src/backlight.rs:81-84 | on a directory whose `brightness` is read-only, a call fails with PermissionDenied and leaves the directory as it was |
| Scenarios.Step | src/backlight.rs:108-124 | one `SetBrightness` on a bound backlight stores the value computed from the directory's current content |
| Scenarios.Session | src/backlight.rs:105-106 | runs the documented example, where a backlight bound to `acpi_video0` and set to 20 stores `Clamp(20, 0, max)`; an `Increase(70)` that the example does not contain then stores `Clamp(first + 70, 0, max)`; on a device with a non-negative maximum, neither value leaves `[0, max]` |

## Left out

- src/main.rs: command-line plumbing (`env::args`, `unwrap`, argument parsing). It calls `set_brightness` with one argument, while the method takes an operation and a value, so it does not match the library.
- Device autodetection, a stdin streaming mode and `+`/`-` prefix parsing: none of these is in `src/backlight.rs`.
- Real filesystem I/O: the store is an abstract map from path to contents plus a set of writable paths. Other I/O failures are not modelled: read permissions, `fs::read_to_string` failing with `InvalidData` on contents that are not UTF-8 (the `files` map holds only strings), `write_all` errors, and the kernel rejecting an out-of-range value.
- Byte-level write semantics: `set` opens without `truncate`, so on a regular file writing "5" over "100" would leave "500". The model assumes sysfs semantics, where a write replaces the whole value.
- Backlight.Join: models `Path::join` for '/'-separated Unix paths only. Windows prefixes and `.`/`..` normalisation are not modelled.
- NewBrightness: `cur ± value` outside i128 is an `Overflow` error, which matches the panic of a build with overflow checks. A release build would wrap instead, and that is not modelled.
- Decimal.ParseIntAccepts: a parse failure is one `None`. The error kinds of Rust's `i128` parsing (empty, invalid digit, positive or negative overflow) are not told apart, because `unwrap` panics on all of them alike.
- Panics end the Rust process. The model returns the error instead and keeps whatever field updates came before it.
- Concurrency: the model does not cover an outside writer, such as hardware keys or another process, changing `brightness` between the read and the write.
