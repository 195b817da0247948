/**
 * Properties of one and of consecutive `set_brightness` calls, stated on the
 * specification functions that `Backlight.SetBrightness` is proved against.
 */
module BacklightProperties {
  import opened Wrappers
  import opened Decimal
  import opened Backlight
  import Sysfs

  /** `get` after `set` on the same control file yields the value written. */
  lemma WriteThenRead(files: map<string, string>, dir: string, name: string, v: Int128)
    ensures ReadField(files[Join(dir, name) := ToDecimal(v)], dir, name) == Ok(v)
  {
    ParseToDecimal(v);
  }

  /**
   * With `cur` and `maxB` read from the two control files and `brightness`
   * writable, a call that does not overflow replaces the text of
   * `brightness` with the decimal value computed from them.
   */
  lemma StoreAfterWrites(files: map<string, string>, writable: set<string>, dir: string,
                         minB: Int128, op: Op, value: Int128, cur: Int128, maxB: Int128)
    requires ReadField(files, dir, BRIGHTNESS) == Ok(cur) && ReadField(files, dir, MAX_BRIGHTNESS) == Ok(maxB)
    requires Join(dir, BRIGHTNESS) in writable
    requires NewBrightness(op, value, cur, minB, maxB).Ok?
    ensures StoreAfter(files, writable, dir, minB, op, value)
      == files[Join(dir, BRIGHTNESS) := ToDecimal(NewBrightness(op, value, cur, minB, maxB).value)]
  {
    ResultFromReads(files, writable, dir, minB, op, value);
  }

  /** Writing one control file leaves what another one reads unchanged. */
  lemma WriteKeepsOtherField(files: map<string, string>, dir: string, name: string, other: string, text: string)
    requires Join(dir, name) != Join(dir, other)
    ensures ReadField(files[Join(dir, name) := text], dir, other) == ReadField(files, dir, other)
  {
  }

  /** Only `brightness` is written: every other file, `max_brightness` included, keeps its contents. */
  lemma OnlyBrightnessWritten(files: map<string, string>, writable: set<string>, dir: string,
                              minB: Int128, op: Op, value: Int128)
    ensures var after := StoreAfter(files, writable, dir, minB, op, value);
      && after.Keys == files.Keys
      && (forall p :: p in files && p != Join(dir, BRIGHTNESS) ==> after[p] == files[p])
      && ReadField(after, dir, MAX_BRIGHTNESS) == ReadField(files, dir, MAX_BRIGHTNESS)
  {
    FieldPathsDistinct(dir);
  }

  /** After a successful call, `brightness` reads back as exactly the value computed. */
  lemma StoredValueReadsBack(files: map<string, string>, writable: set<string>, dir: string,
                             minB: Int128, op: Op, value: Int128)
    ensures var w := SetBrightnessResult(files, writable, dir, minB, op, value);
      w.Ok? ==> ReadField(StoreAfter(files, writable, dir, minB, op, value), dir, BRIGHTNESS) == Ok(w.value)
  {
    var w := SetBrightnessResult(files, writable, dir, minB, op, value);
    if w.Ok? {
      WriteThenRead(files, dir, BRIGHTNESS, w.value);
    }
  }

  /**
   * The value written never exceeds the live `max_brightness`; it is at least
   * `minB` when `minB` does not exceed it, and equals it when it lies below `minB`.
   */
  lemma WrittenWithinBounds(files: map<string, string>, writable: set<string>, dir: string,
                            minB: Int128, op: Op, value: Int128)
    ensures var w := SetBrightnessResult(files, writable, dir, minB, op, value);
            var m := ReadField(files, dir, MAX_BRIGHTNESS);
      w.Ok? ==> (m.Ok? && w.value <= m.value
        && (minB <= m.value ==> minB <= w.value)
        && (m.value < minB ==> w.value == m.value))
  {
    var w := SetBrightnessResult(files, writable, dir, minB, op, value);
    if w.Ok? {
      var c := ReadField(files, dir, BRIGHTNESS);
      var m := ReadField(files, dir, MAX_BRIGHTNESS);
      assert c.Ok? && m.Ok?;
      assert w == NewBrightness(op, value, c.value, minB, m.value);
    }
  }

  /**
   * When both control files read but `brightness` may not be written, a call
   * that does not overflow fails on opening it, having written nothing.
   */
  lemma UnwritableFails(files: map<string, string>, writable: set<string>, dir: string,
                        minB: Int128, op: Op, value: Int128)
    requires ReadField(files, dir, BRIGHTNESS).Ok? && ReadField(files, dir, MAX_BRIGHTNESS).Ok?
    requires Join(dir, BRIGHTNESS) !in writable
    requires NewBrightness(op, value, ReadField(files, dir, BRIGHTNESS).value,
                           minB, ReadField(files, dir, MAX_BRIGHTNESS).value).Ok?
    ensures SetBrightnessResult(files, writable, dir, minB, op, value)
      == Err(Io(Join(dir, BRIGHTNESS), Sysfs.PermissionDenied))
    ensures StoreAfter(files, writable, dir, minB, op, value) == files
  {
    assert Join(dir, BRIGHTNESS) in files;
  }

  /** When every file is readable and `brightness` writable, the three operations store these values. */
  lemma ResultByOp(files: map<string, string>, writable: set<string>, dir: string,
                   minB: Int128, op: Op, value: Int128)
    requires ReadField(files, dir, BRIGHTNESS).Ok? && ReadField(files, dir, MAX_BRIGHTNESS).Ok?
    requires Join(dir, BRIGHTNESS) in writable
    ensures var c := ReadField(files, dir, BRIGHTNESS).value;
            var m := ReadField(files, dir, MAX_BRIGHTNESS).value;
            var w := SetBrightnessResult(files, writable, dir, minB, op, value);
      && (op == Set ==> w == Ok(Clamp(value, minB, m)))
      && (op == Increase ==> w == if InI128(c + value) then Ok(Clamp(c + value, minB, m)) else Err(Overflow))
      && (op == Decrease ==> w == if InI128(c - value) then Ok(Clamp(c - value, minB, m)) else Err(Overflow))
  {
    var c := ReadField(files, dir, BRIGHTNESS).value;
    var m := ReadField(files, dir, MAX_BRIGHTNESS).value;
    ResultFromReads(files, writable, dir, minB, op, value);
  }

  /**
   * A decrement from a non-negative brightness cannot overflow, and one that
   * goes below `minB` stores `minB` (when `minB` does not exceed the maximum).
   */
  lemma DecreaseSaturatesAtMin(files: map<string, string>, writable: set<string>, dir: string,
                               minB: Int128, value: Int128)
    requires ReadField(files, dir, BRIGHTNESS).Ok? && ReadField(files, dir, MAX_BRIGHTNESS).Ok?
    requires Join(dir, BRIGHTNESS) in writable
    requires 0 <= ReadField(files, dir, BRIGHTNESS).value && 0 <= value
    ensures var c := ReadField(files, dir, BRIGHTNESS).value;
            var m := ReadField(files, dir, MAX_BRIGHTNESS).value;
            var w := SetBrightnessResult(files, writable, dir, minB, Decrease, value);
      && w.Ok?
      && (c - value <= minB <= m ==> w.value == minB)
  {
    var c := ReadField(files, dir, BRIGHTNESS).value;
    var m := ReadField(files, dir, MAX_BRIGHTNESS).value;
    ResultByOp(files, writable, dir, minB, Decrease, value);
    assert InI128(c) && InI128(value);
    assert InI128(c - value);
    if c - value <= minB <= m {
      assert Clamp(c - value, minB, m) == minB;
    }
  }

  /** An increment that reaches the maximum stores the maximum. */
  lemma IncreaseSaturatesAtMax(files: map<string, string>, writable: set<string>, dir: string,
                               minB: Int128, value: Int128)
    requires ReadField(files, dir, BRIGHTNESS).Ok? && ReadField(files, dir, MAX_BRIGHTNESS).Ok?
    requires Join(dir, BRIGHTNESS) in writable
    requires InI128(ReadField(files, dir, BRIGHTNESS).value + value)
    ensures var c := ReadField(files, dir, BRIGHTNESS).value;
            var m := ReadField(files, dir, MAX_BRIGHTNESS).value;
            var w := SetBrightnessResult(files, writable, dir, minB, Increase, value);
      m <= c + value ==> w == Ok(m)
  {
    var c := ReadField(files, dir, BRIGHTNESS).value;
    var m := ReadField(files, dir, MAX_BRIGHTNESS).value;
    ResultByOp(files, writable, dir, minB, Increase, value);
    if m <= c + value {
      assert Clamp(c + value, minB, m) == m;
    }
  }

  /**
   * A second call works from the value the first one wrote (read back from
   * `brightness`) and from the unchanged `max_brightness`, not from anything
   * held from before.
   */
  lemma NextCallSeesWrite(files: map<string, string>, writable: set<string>, dir: string,
                          minB: Int128, op1: Op, v1: Int128, op2: Op, v2: Int128)
    requires SetBrightnessResult(files, writable, dir, minB, op1, v1).Ok?
    ensures var w1 := SetBrightnessResult(files, writable, dir, minB, op1, v1).value;
            var after := StoreAfter(files, writable, dir, minB, op1, v1);
            var m := ReadField(files, dir, MAX_BRIGHTNESS).value;
      SetBrightnessResult(after, writable, dir, minB, op2, v2) == NewBrightness(op2, v2, w1, minB, m)
  {
    var w1 := SetBrightnessResult(files, writable, dir, minB, op1, v1).value;
    var after := files[Join(dir, BRIGHTNESS) := ToDecimal(w1)];
    ResultOk(files, writable, dir, minB, op1, v1);
    StoreAfterOk(files, writable, dir, minB, op1, v1);
    WriteThenRead(files, dir, BRIGHTNESS, w1);
    WriteKeepsOtherField(files, dir, BRIGHTNESS, MAX_BRIGHTNESS, ToDecimal(w1));
    ResultFromReads(after, writable, dir, minB, op2, v2);
  }

  /** Once `Set(v)` has succeeded, the same call on the resulting store computes the same value. */
  lemma SetAgainSameResult(files: map<string, string>, writable: set<string>, dir: string,
                           minB: Int128, value: Int128)
    requires SetBrightnessResult(files, writable, dir, minB, Set, value).Ok?
    ensures var w := SetBrightnessResult(files, writable, dir, minB, Set, value);
      SetBrightnessResult(files[Join(dir, BRIGHTNESS) := ToDecimal(w.value)], writable, dir, minB, Set, value) == w
  {
    var w := SetBrightnessResult(files, writable, dir, minB, Set, value);
    ResultOk(files, writable, dir, minB, Set, value);
    ResultFromReads(files, writable, dir, minB, Set, value);
    StoreAfterOk(files, writable, dir, minB, Set, value);
    NextCallSeesWrite(files, writable, dir, minB, Set, value, Set, value);
    assert NewBrightness(Set, value, w.value, minB, ReadField(files, dir, MAX_BRIGHTNESS).value) == w;
  }

  /** `Set(v)` twice in a row leaves the same store, and computes the same value, as `Set(v)` once. */
  lemma SetIdempotent(files: map<string, string>, writable: set<string>, dir: string,
                      minB: Int128, value: Int128)
    ensures var after := StoreAfter(files, writable, dir, minB, Set, value);
      && StoreAfter(after, writable, dir, minB, Set, value) == after
      && SetBrightnessResult(after, writable, dir, minB, Set, value)
         == SetBrightnessResult(files, writable, dir, minB, Set, value)
  {
    var w := SetBrightnessResult(files, writable, dir, minB, Set, value);
    if w.Ok? {
      var after := files[Join(dir, BRIGHTNESS) := ToDecimal(w.value)];
      StoreAfterOk(files, writable, dir, minB, Set, value);
      SetAgainSameResult(files, writable, dir, minB, value);
      StoreAfterOk(after, writable, dir, minB, Set, value);
      assert after[Join(dir, BRIGHTNESS) := ToDecimal(w.value)] == after;
    } else {
      assert StoreAfter(files, writable, dir, minB, Set, value) == files;
    }
  }
}
