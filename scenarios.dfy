/**
 * Concrete runs of the backlight against a device directory `dir` whose
 * `brightness` is writable and whose `max_brightness` is not.
 */
module Scenarios {
  import opened Wrappers
  import opened Decimal
  import opened Backlight
  import opened BacklightProperties
  import Sysfs

  /** The decimal text of `v`, with the newline sysfs appends when `newline` holds. */
  function Text(v: Int128, newline: bool): string
  {
    ToDecimal(v) + if newline then "\n" else ""
  }

  /** A device directory whose `brightness` holds `cur` and whose `max_brightness` holds `max` and a newline. */
  function Device(dir: string, cur: string, max: Int128): map<string, string>
  {
    map[Join(dir, BRIGHTNESS) := cur, Join(dir, MAX_BRIGHTNESS) := Text(max, true)]
  }

  /** Both control files of such a directory read back as the values put there. */
  lemma DeviceReads(dir: string, cur: Int128, newline: bool, max: Int128)
    ensures ReadField(Device(dir, Text(cur, newline), max), dir, BRIGHTNESS) == Ok(cur)
    ensures ReadField(Device(dir, Text(cur, newline), max), dir, MAX_BRIGHTNESS) == Ok(max)
  {
    FieldPathsDistinct(dir);
    if newline {
      TrimTrailingNewline(ToDecimal(cur));
    } else {
      assert Text(cur, newline) == ToDecimal(cur);
    }
    TrimTrailingNewline(ToDecimal(max));
    ParseToDecimal(cur);
    ParseToDecimal(max);
  }

  /** On such a directory with floor 0, a call computes from the two values put there. */
  lemma DeviceResult(dir: string, cur: Int128, newline: bool, max: Int128, op: Op, value: Int128)
    ensures SetBrightnessResult(Device(dir, Text(cur, newline), max), {Join(dir, BRIGHTNESS)}, dir, 0, op, value)
      == NewBrightness(op, value, cur, 0, max)
  {
    DeviceReads(dir, cur, newline, max);
    ResultFromReads(Device(dir, Text(cur, newline), max), {Join(dir, BRIGHTNESS)}, dir, 0, op, value);
  }

  /**
   * One successful call on such a directory with floor 0 leaves a directory of
   * the same shape, holding the computed brightness and the old maximum.
   */
  lemma DeviceStep(dir: string, cur: Int128, newline: bool, max: Int128, op: Op, value: Int128)
    requires NewBrightness(op, value, cur, 0, max).Ok?
    ensures StoreAfter(Device(dir, Text(cur, newline), max), {Join(dir, BRIGHTNESS)}, dir, 0, op, value)
      == Device(dir, Text(NewBrightness(op, value, cur, 0, max).value, false), max)
  {
    var store := Device(dir, Text(cur, newline), max);
    var w := NewBrightness(op, value, cur, 0, max).value;
    DeviceReads(dir, cur, newline, max);
    StoreAfterWrites(store, {Join(dir, BRIGHTNESS)}, dir, 0, op, value, cur, max);
    DeviceWrite(dir, Text(cur, newline), max, w);
  }

  /** Writing `brightness` of such a directory gives one of the same shape. */
  lemma DeviceWrite(dir: string, text: string, max: Int128, w: Int128)
    ensures Device(dir, text, max)[Join(dir, BRIGHTNESS) := ToDecimal(w)] == Device(dir, Text(w, false), max)
  {
    FieldPathsDistinct(dir);
    assert Text(w, false) == ToDecimal(w);
  }

  /** With maximum 255, `Set(-5)` stores 0. */
  lemma SetBelowZero(dir: string)
    ensures StoreAfter(Device(dir, Text(128, true), 255), {Join(dir, BRIGHTNESS)}, dir, 0, Set, -5)
      == Device(dir, Text(0, false), 255)
  {
    DeviceStep(dir, 128, true, 255, Set, -5);
  }

  /** With maximum 255, `Set(300)` stores 255. */
  lemma SetAboveMax(dir: string)
    ensures StoreAfter(Device(dir, Text(128, true), 255), {Join(dir, BRIGHTNESS)}, dir, 0, Set, 300)
      == Device(dir, Text(255, false), 255)
  {
    DeviceStep(dir, 128, true, 255, Set, 300);
  }

  /** With maximum 100 and current 50, `Increase(70)` stores 100. */
  lemma IncreasePastMax(dir: string)
    ensures StoreAfter(Device(dir, Text(50, true), 100), {Join(dir, BRIGHTNESS)}, dir, 0, Increase, 70)
      == Device(dir, Text(100, false), 100)
  {
    DeviceStep(dir, 50, true, 100, Increase, 70);
  }

  /** With maximum 100 and current 10, `Decrease(50)` stores 0. */
  lemma DecreasePastZero(dir: string)
    ensures StoreAfter(Device(dir, Text(10, true), 100), {Join(dir, BRIGHTNESS)}, dir, 0, Decrease, 50)
      == Device(dir, Text(0, false), 100)
  {
    DeviceStep(dir, 10, true, 100, Decrease, 50);
  }

  /** The largest decrement from a small brightness saturates at 0 instead of wrapping. */
  lemma DecreaseByMost(dir: string)
    ensures StoreAfter(Device(dir, Text(10, true), 100), {Join(dir, BRIGHTNESS)}, dir, 0, Decrease, I128_MAX)
      == Device(dir, Text(0, false), 100)
  {
    DeviceStep(dir, 10, true, 100, Decrease, I128_MAX);
  }

  /** A `brightness` that may not be written: the call fails and the store is unchanged. */
  lemma ReadOnlyBrightness(dir: string, cur: Int128, newline: bool, max: Int128, op: Op, value: Int128)
    requires NewBrightness(op, value, cur, 0, max).Ok?
    ensures SetBrightnessResult(Device(dir, Text(cur, newline), max), {}, dir, 0, op, value)
      == Err(Io(Join(dir, BRIGHTNESS), Sysfs.PermissionDenied))
    ensures StoreAfter(Device(dir, Text(cur, newline), max), {}, dir, 0, op, value)
      == Device(dir, Text(cur, newline), max)
  {
    DeviceReads(dir, cur, newline, max);
    UnwritableFails(Device(dir, Text(cur, newline), max), {}, dir, 0, op, value);
  }

  /** One `SetBrightness` call on a backlight bound to such a directory. */
  method Step(b: Backlight, fs: Sysfs.FileSystem, cur: Int128, newline: bool, max: Int128, op: Op, value: Int128)
    returns (w: Int128)
    requires b.minBright == 0 && NewBrightness(op, value, cur, 0, max).Ok?
    requires fs.files == Device(b.brightPth, Text(cur, newline), max) && fs.writable == {Join(b.brightPth, BRIGHTNESS)}
    modifies b`curBright, b`maxBright, fs`files
    ensures w == NewBrightness(op, value, cur, 0, max).value
    ensures fs.files == Device(b.brightPth, Text(w, false), max)
  {
    DeviceResult(b.brightPth, cur, newline, max, op, value);
    DeviceStep(b.brightPth, cur, newline, max, op, value);
    var r := b.SetBrightness(fs, op, value);
    assert r == Pass;
    w := NewBrightness(op, value, cur, 0, max).value;
  }

  /**
   * The documented use of the library: bind to `acpi_video0` and `Set` the
   * brightness to 20, then raise it by 70. The second call starts from what
   * the first one wrote, and neither passes the device's maximum.
   */
  method Session(cur: Int128, max: Int128) returns (first: Int128, second: Int128)
    ensures first == Clamp(20, 0, max) && second == Clamp(first + 70, 0, max)
    ensures 0 <= max ==> 0 <= first <= second <= max
  {
    var dir := Join(BACKLIGHT_ROOT, "acpi_video0");
    var fs := new Sysfs.FileSystem(Device(dir, Text(cur, true), max), {Join(dir, BRIGHTNESS)});
    var b := new Backlight("acpi_video0");
    first := Step(b, fs, cur, true, max, Set, 20);
    second := Step(b, fs, first, false, max, Increase, 70);
  }
}
