/**
 * A display backlight: the `Backlight` struct and its `Ops` enum.
 *
 * The device directory is reached through a `Sysfs.FileSystem`; every read
 * and write of a control file goes through it. Each `SetBrightness` re-reads
 * the live `brightness` and `max_brightness` values, computes the target for
 * the operation, saturates it into `[minBright, maxBright]` and writes it
 * back in decimal.
 */
module Backlight {
  import opened Wrappers
  import opened Decimal
  import Sysfs

  const BACKLIGHT_ROOT: string := "/sys/class/backlight"
  const BRIGHTNESS: string := "brightness"
  const MAX_BRIGHTNESS: string := "max_brightness"

  /** The operations that can be performed on the backlight. */
  datatype Op = Increase | Decrease | Set

  /** Why an operation stops; in the Rust code each of these is a panic. */
  datatype Error =
    | Io(path: string, cause: Sysfs.IoError)    // a file that cannot be read or opened for writing
    | Parse(path: string, contents: string)     // a file whose trimmed text is not an i128
    | Overflow                                  // `cur_bright + value` or `cur_bright - value` leaves i128

  /**
   * `Path::join` on '/'-separated paths: an absolute `name` replaces `base`;
   * otherwise a separator is put between them unless `base` is empty or
   * already ends in one.
   */
  function Join(base: string, name: string): (p: string)
    ensures |name| > 0 && name[0] == '/' ==> p == name
    ensures |name| == 0 || name[0] != '/' ==>
      |base| + |name| <= |p| <= |base| + 1 + |name| && p[..|base|] == base && p[|p| - |name|..] == name
    ensures |name| == 0 || name[0] != '/' ==>
      (|p| == |base| + |name| <==> |base| == 0 || base[|base| - 1] == '/')
    ensures |name| == 0 || name[0] != '/' ==>
      |p| == |base| + 1 + |name| ==> p[|base|] == '/'
  {
    if |name| > 0 && name[0] == '/' then name
    else if |base| == 0 || base[|base| - 1] == '/' then base + name
    else base + "/" + name
  }

  /** The two control files of one device directory are different files. */
  lemma FieldPathsDistinct(dir: string)
    ensures Join(dir, BRIGHTNESS) != Join(dir, MAX_BRIGHTNESS)
  {
    assert |Join(dir, BRIGHTNESS)| + 4 == |Join(dir, MAX_BRIGHTNESS)|;
  }

  // ------------------------------------------------------------ specification

  /** What `get` yields for control file `name` of directory `dir` in store `files`. */
  function ReadField(files: map<string, string>, dir: string, name: string): Result<Int128, Error>
  {
    var path := Join(dir, name);
    if path !in files then Err(Io(path, Sysfs.NotFound))
    else match ParseInt(Trim(files[path]))
      case None => Err(Parse(path, files[path]))
      case Some(v) => Ok(v)
  }

  /** The unclamped target of an operation from the current brightness. */
  function Target(op: Op, cur: int, value: int): int
  {
    match op
    case Increase => cur + value
    case Decrease => cur - value
    case Set => value
  }

  /** `v.max(lo).min(hi)`: saturate `v` into `[lo, hi]`, the upper bound winning when they cross. */
  function Clamp(v: int, lo: int, hi: int): (r: int)
    ensures r <= hi
    ensures lo <= hi ==> lo <= r
    ensures hi < lo ==> r == hi
    ensures lo <= v <= hi ==> r == v
    ensures v < lo && lo <= hi ==> r == lo
    ensures hi < v ==> r == hi
  {
    var atLeast := if v < lo then lo else v;
    if hi < atLeast then hi else atLeast
  }

  /** The value `set_brightness` computes before writing, or the overflow it stops on. */
  function NewBrightness(op: Op, value: Int128, cur: Int128, minB: Int128, maxB: Int128): (r: Result<Int128, Error>)
    ensures r.Ok? <==> InI128(Target(op, cur, value))
    ensures r.Err? ==> r.error == Overflow
    ensures r.Ok? ==> r.value <= maxB && (minB <= maxB ==> minB <= r.value)
    ensures r.Ok? && minB <= Target(op, cur, value) <= maxB ==> r.value == Target(op, cur, value)
  {
    var t := Target(op, cur, value);
    if InI128(t) then Ok(Clamp(t, minB, maxB)) else Err(Overflow)
  }

  /**
   * What one `set_brightness(op, value)` call writes to `brightness`, or the
   * first error it stops on: reading `brightness`, reading `max_brightness`,
   * the arithmetic, and opening `brightness` for writing, in that order.
   */
  function SetBrightnessResult(files: map<string, string>, writable: set<string>, dir: string,
                               minB: Int128, op: Op, value: Int128): Result<Int128, Error>
  {
    var cur :- ReadField(files, dir, BRIGHTNESS);
    var maxB :- ReadField(files, dir, MAX_BRIGHTNESS);
    var v :- NewBrightness(op, value, cur, minB, maxB);
    var path := Join(dir, BRIGHTNESS);
    if path !in files then Err(Io(path, Sysfs.NotFound))
    else if path !in writable then Err(Io(path, Sysfs.PermissionDenied))
    else Ok(v)
  }

  /** The store after one `set_brightness(op, value)` call. */
  function StoreAfter(files: map<string, string>, writable: set<string>, dir: string,
                      minB: Int128, op: Op, value: Int128): map<string, string>
  {
    match SetBrightnessResult(files, writable, dir, minB, op, value)
    case Ok(v) => files[Join(dir, BRIGHTNESS) := ToDecimal(v)]
    case Err(_) => files
  }

  /**
   * When both control files read and `brightness` may be written, a call
   * writes exactly what the operation computes from the two values read.
   */
  lemma ResultFromReads(files: map<string, string>, writable: set<string>, dir: string,
                        minB: Int128, op: Op, value: Int128)
    requires ReadField(files, dir, BRIGHTNESS).Ok? && ReadField(files, dir, MAX_BRIGHTNESS).Ok?
    requires Join(dir, BRIGHTNESS) in writable
    ensures SetBrightnessResult(files, writable, dir, minB, op, value)
      == NewBrightness(op, value, ReadField(files, dir, BRIGHTNESS).value, minB, ReadField(files, dir, MAX_BRIGHTNESS).value)
  {
    assert Join(dir, BRIGHTNESS) in files;
  }

  /** A call succeeds only when both control files read and `brightness` may be written. */
  lemma ResultOk(files: map<string, string>, writable: set<string>, dir: string,
                 minB: Int128, op: Op, value: Int128)
    requires SetBrightnessResult(files, writable, dir, minB, op, value).Ok?
    ensures ReadField(files, dir, BRIGHTNESS).Ok? && ReadField(files, dir, MAX_BRIGHTNESS).Ok?
    ensures Join(dir, BRIGHTNESS) in files && Join(dir, BRIGHTNESS) in writable
  {
  }

  /** A successful call replaces the text of `brightness` with the decimal value it computed. */
  lemma StoreAfterOk(files: map<string, string>, writable: set<string>, dir: string,
                     minB: Int128, op: Op, value: Int128)
    requires SetBrightnessResult(files, writable, dir, minB, op, value).Ok?
    ensures StoreAfter(files, writable, dir, minB, op, value)
      == files[Join(dir, BRIGHTNESS) := ToDecimal(SetBrightnessResult(files, writable, dir, minB, op, value).value)]
  {
  }

  // ------------------------------------------------------------------- object

  /** A display backlight bound to one device directory. */
  class Backlight {
    const brightPth: string
    var curBright: Int128
    var minBright: Int128
    var maxBright: Int128

    /** Binds to `<backlight root>/<name>`; nothing is read yet. */
    constructor (name: string)
      ensures brightPth == Join(BACKLIGHT_ROOT, name)
      ensures curBright == 0 && minBright == 0 && maxBright == 0
    {
      brightPth := Join(BACKLIGHT_ROOT, name);
      curBright, minBright, maxBright := 0, 0, 0;
    }

    /** Reads control file `file`, trims it and parses it as an i128. */
    method Get(fs: Sysfs.FileSystem, file: string) returns (r: Result<Int128, Error>)
      ensures r == ReadField(fs.files, brightPth, file)
    {
      var path := Join(brightPth, file);
      var contents := fs.ReadToString(path);
      if contents.Err? {
        return Err(Io(path, contents.error));
      }
      var parsed := ParseInt(Trim(contents.value));
      if parsed.None? {
        return Err(Parse(path, contents.value));
      }
      return Ok(parsed.value);
    }

    /** Writes `value` in decimal to control file `file`, which must exist and be writable. */
    method SetField(fs: Sysfs.FileSystem, file: string, value: Int128) returns (r: Outcome<Error>)
      modifies fs`files
      ensures var path := Join(brightPth, file);
        && (path in old(fs.files) && path in fs.writable <==> r.Pass?)
        && (path !in old(fs.files) ==> r == Fail(Io(path, Sysfs.NotFound)))
        && (path in old(fs.files) && path !in fs.writable ==> r == Fail(Io(path, Sysfs.PermissionDenied)))
        && fs.files == if r.Pass? then old(fs.files)[path := ToDecimal(value)] else old(fs.files)
    {
      var path := Join(brightPth, file);
      var w := fs.Write(path, ToDecimal(value));
      if w.Fail? {
        return Fail(Io(path, w.error));
      }
      return Pass;
    }

    /** Re-reads `curBright` from `brightness`, then `maxBright` from `max_brightness`. */
    method Update(fs: Sysfs.FileSystem) returns (r: Outcome<Error>)
      modifies this`curBright, this`maxBright
      ensures var c := ReadField(fs.files, brightPth, BRIGHTNESS);
              var m := ReadField(fs.files, brightPth, MAX_BRIGHTNESS);
        && r == (if c.Err? then Fail(c.error) else if m.Err? then Fail(m.error) else Pass)
        && curBright == (if c.Ok? then c.value else old(curBright))
        && maxBright == (if c.Ok? && m.Ok? then m.value else old(maxBright))
    {
      var c := Get(fs, BRIGHTNESS);
      if c.Err? {
        return Fail(c.error);
      }
      curBright := c.value;
      var m := Get(fs, MAX_BRIGHTNESS);
      if m.Err? {
        return Fail(m.error);
      }
      maxBright := m.value;
      return Pass;
    }

    /** Applies `op` with `value` to the live brightness, saturated into `[minBright, maxBright]`. */
    method SetBrightness(fs: Sysfs.FileSystem, op: Op, value: Int128) returns (r: Outcome<Error>)
      modifies this`curBright, this`maxBright, fs`files
      ensures var w := SetBrightnessResult(old(fs.files), fs.writable, brightPth, minBright, op, value);
        && (r.Pass? <==> w.Ok?)
        && (r.Fail? ==> r.error == w.error)
        && fs.files == StoreAfter(old(fs.files), fs.writable, brightPth, minBright, op, value)
      ensures var c := ReadField(old(fs.files), brightPth, BRIGHTNESS);
              var m := ReadField(old(fs.files), brightPth, MAX_BRIGHTNESS);
        && curBright == (if c.Ok? then c.value else old(curBright))
        && maxBright == (if c.Ok? && m.Ok? then m.value else old(maxBright))
    {
      ghost var files := fs.files;
      var u := Update(fs);
      if u.Fail? {
        return u;
      }
      assert ReadField(files, brightPth, BRIGHTNESS) == Ok(curBright);
      assert ReadField(files, brightPth, MAX_BRIGHTNESS) == Ok(maxBright);
      var target := Target(op, curBright, value);
      if !InI128(target) {
        return Fail(Overflow);
      }
      var v := Clamp(target, minBright, maxBright);
      assert NewBrightness(op, value, curBright, minBright, maxBright) == Ok(v);
      r := SetField(fs, BRIGHTNESS, v);
    }
  }
}
