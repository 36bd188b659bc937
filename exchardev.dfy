/**
 * The example character device (exchardev): its colour state machine driven
 * by ioctl, the colour-to-escape-sequence table, and the byte counts read
 * and write report.
 *
 * The only state is the module-global `color` (a color_t). copy_to_user and
 * copy_from_user are oracles: a boolean saying whether every byte was
 * copied. The printk output and the user buffer contents are not modelled.
 */
module ExCharDev {
  import opened Wrappers
  import opened KernelDefs

  /** unsigned int, the representation the compiler gives color_t (no negative enumerator). */
  type UInt = x: nat | x < 0x1_0000_0000
  /** unsigned long and size_t on a 64-bit kernel. */
  type ULong = x: nat | x < 0x1_0000_0000_0000_0000

  // ---------------------------------------------------------------------
  // exchardev.h

  /** The color_t enumerators. */
  const COLOR_DEF: UInt := 0
  const COLOR_RED: UInt := 1
  const COLOR_GREEN: UInt := 2
  const LAST_COLOR: UInt := 3

  const EXCHARDEV_MAJOR: nat := 124

  /** The direction bits of an ioctl number (asm-generic/ioctl.h). */
  const IOC_WRITE: nat := 1
  const IOC_READ: nat := 2

  /** _IOC(dir, type, nr, size): nr in bits 0-7, type in 8-15, size in 16-29, dir in 30-31. */
  function Ioc(dir: nat, typ: nat, nr: nat, size: nat): nat
  {
    dir * 0x4000_0000 + size * 0x1_0000 + typ * 0x100 + nr
  }

  /** _IOR(EXCHARDEV_MAJOR, 0, color_t): sizeof(color_t) is 4. */
  const EXCHARDEV_SET_COLOR: UInt := Ioc(IOC_READ, EXCHARDEV_MAJOR, 0, 4)
  /** _IOW(EXCHARDEV_MAJOR, 1, color_t *): a pointer is 8 bytes. */
  const EXCHARDEV_GET_COLOR: UInt := Ioc(IOC_WRITE, EXCHARDEV_MAJOR, 1, 8)

  /** The two commands are distinct numbers, with these values. */
  lemma IoctlNumbers()
    ensures EXCHARDEV_SET_COLOR == 0x8004_7C00
    ensures EXCHARDEV_GET_COLOR == 0x4008_7C01
    ensures EXCHARDEV_SET_COLOR != EXCHARDEV_GET_COLOR
  {
  }

  // ---------------------------------------------------------------------
  // get_color

  const GREEN: string := "\U{1B}[0;32m"
  const RED: string := "\U{1B}[0;31m"
  const DEFCOL: string := "\U{1B}[0m"

  /** get_color: the escape sequence of a colour, None (NULL) for anything else. */
  function GetColor(c: int): (s: Option<string>)
    ensures s.Some? <==> 0 <= c < LAST_COLOR
  {
    if c == COLOR_DEF then Some(DEFCOL)
    else if c == COLOR_RED then Some(RED)
    else if c == COLOR_GREEN then Some(GREEN)
    else None
  }

  /**
   * The table: default, red and green get the reset, red-foreground and
   * green-foreground sequences. Every colour's string is an ANSI
   * select-graphic-rendition sequence (ESC '[' ... 'm') and distinct colours
   * get distinct sequences.
   */
  lemma GetColorEscapes(c: int, d: int)
    requires 0 <= c < LAST_COLOR && 0 <= d < LAST_COLOR
    ensures GetColor(COLOR_RED) == Some("\U{1B}[0;31m") && GetColor(COLOR_GREEN) == Some("\U{1B}[0;32m")
    ensures var s := GetColor(c).value;
            |s| >= 3 && s[0] == '\U{1B}' && s[1] == '[' && s[|s| - 1] == 'm'
    ensures c == COLOR_DEF <==> GetColor(c) == Some("\U{1B}[0m")
    ensures c != d ==> GetColor(c) != GetColor(d)
  {
    assert GREEN[5] == '2' && RED[5] == '1' && |DEFCOL| == 4;
  }

  // ---------------------------------------------------------------------
  // exchardev_ioctl

  /** (color_t)arg: the unsigned long truncated to the 32-bit enum. */
  function ToColor(arg: ULong): (c: UInt)
    ensures arg < 0x1_0000_0000 ==> c == arg
    ensures (arg - c) % 0x1_0000_0000 == 0
  {
    arg % 0x1_0000_0000
  }

  /**
   * What one ioctl call does: its return value, the colour afterwards and
   * the value copied out to the caller (None when nothing is reported).
   */
  datatype Outcome = Outcome(ret: int, color: UInt, reported: Option<UInt>)

  /**
   * exchardev_ioctl on colour `color`. SET_COLOR stores (color_t)arg when it
   * is below LAST_COLOR and fails with -EFAULT otherwise; GET_COLOR copies
   * the colour out (copyOk: copy_to_user copied every byte) and fails with
   * -EFAULT when the copy does not complete; every other command fails with
   * -EFAULT. A failing call leaves the colour alone.
   */
  function IoctlSpec(color: UInt, cmd: UInt, arg: ULong, copyOk: bool): (r: Outcome)
    ensures r.ret == 0 || r.ret == -EFAULT
    ensures r.ret != 0 ==> r.color == color && r.reported.None?
    ensures r.color != color ==> cmd == EXCHARDEV_SET_COLOR
    ensures cmd == EXCHARDEV_SET_COLOR ==>
      && (r.ret == 0 <==> ToColor(arg) < LAST_COLOR)
      && (r.ret == 0 ==> r.color == ToColor(arg))
      && r.reported.None?
    ensures cmd == EXCHARDEV_GET_COLOR ==>
      && r.color == color
      && (r.ret == 0 <==> copyOk)
      && (r.ret == 0 ==> r.reported == Some(color))
    ensures cmd != EXCHARDEV_SET_COLOR && cmd != EXCHARDEV_GET_COLOR ==> r.ret == -EFAULT
  {
    IoctlNumbers();
    if cmd == EXCHARDEV_SET_COLOR then
      if ToColor(arg) >= LAST_COLOR then Outcome(-EFAULT, color, None)
      else Outcome(0, ToColor(arg), None)
    else if cmd == EXCHARDEV_GET_COLOR then
      if !copyOk then Outcome(-EFAULT, color, None)
      else Outcome(0, color, Some(color))
    else
      Outcome(-EFAULT, color, None)
  }

  /** The device, reduced to the module-global colour. */
  class Device {
    var color: UInt

    /** Every colour the device can hold has an escape sequence. */
    ghost predicate Valid()
      reads this
    {
      color < LAST_COLOR
    }

    /** A static color_t starts zeroed: COLOR_DEF. */
    constructor ()
      ensures color == COLOR_DEF && Valid()
    {
      color := COLOR_DEF;
    }

    /** exchardev_ioctl, step by step; IoctlSpec states its effect. */
    method Ioctl(cmd: UInt, arg: ULong, copyOk: bool) returns (ret: int, reported: Option<UInt>)
      requires Valid()
      modifies this
      ensures Valid()
      ensures Outcome(ret, color, reported) == IoctlSpec(old(color), cmd, arg, copyOk)
    {
      reported := None;
      if cmd == EXCHARDEV_SET_COLOR {
        if ToColor(arg) >= LAST_COLOR {
          return -EFAULT, reported;
        }
        color := ToColor(arg);
      } else if cmd == EXCHARDEV_GET_COLOR {
        if !copyOk {                                     // copy_to_user left bytes uncopied
          return -EFAULT, reported;
        }
        reported := Some(color);
      } else {
        return -EFAULT, reported;
      }
      return 0, reported;
    }
  }

  /** Setting a valid colour and then getting it reports that colour. */
  lemma SetThenGet(before: UInt, v: UInt, setCopy: bool, getArg: ULong)
    requires v < LAST_COLOR
    ensures var s := IoctlSpec(before, EXCHARDEV_SET_COLOR, v, setCopy);
            var g := IoctlSpec(s.color, EXCHARDEV_GET_COLOR, getArg, true);
            s.ret == 0 && g.ret == 0 && g.reported == Some(v) && g.color == v
  {
    IoctlNumbers();
  }

  /** Starting from a valid colour, no command sequence leaves an invalid one. */
  lemma IoctlKeepsColorValid(color: UInt, cmd: UInt, arg: ULong, copyOk: bool)
    requires color < LAST_COLOR
    ensures IoctlSpec(color, cmd, arg, copyOk).color < LAST_COLOR
    ensures GetColor(IoctlSpec(color, cmd, arg, copyOk).color).Some?
  {
  }

  /**
   * The cast keeps only the low 32 bits of arg, so an argument above the
   * unsigned int range whose low bits name a colour is accepted.
   */
  lemma SetTruncatesArgument(color: UInt, copyOk: bool)
    ensures IoctlSpec(color, EXCHARDEV_SET_COLOR, 0x1_0000_0002, copyOk) == Outcome(0, COLOR_GREEN, None)
    ensures IoctlSpec(color, EXCHARDEV_SET_COLOR, 0x1_0000_0003, copyOk) == Outcome(-EFAULT, color, None)
  {
    IoctlNumbers();
  }

  /**
   * The userspace demo's ioctl sequence on a fresh device: set green, get
   * (green), set red, set the colour got before: the device ends green.
   */
  lemma DemoSequence(p: ULong)
    ensures var s1 := IoctlSpec(COLOR_DEF, EXCHARDEV_SET_COLOR, COLOR_GREEN, true);
            var g := IoctlSpec(s1.color, EXCHARDEV_GET_COLOR, p, true);
            var s2 := IoctlSpec(g.color, EXCHARDEV_SET_COLOR, COLOR_RED, true);
            var s3 := IoctlSpec(s2.color, EXCHARDEV_SET_COLOR, g.reported.value, true);
            && s1.ret == 0 && g.ret == 0 && s2.ret == 0 && s3.ret == 0
            && g.reported == Some(COLOR_GREEN) && s2.color == COLOR_RED && s3.color == COLOR_GREEN
  {
    SetThenGet(COLOR_DEF, COLOR_GREEN, true, p);
    IoctlNumbers();
  }

  // ---------------------------------------------------------------------
  // exchardev_read and exchardev_write: the byte counts

  const KERNEL_MSG: string := "Hello from kernel"
  /** sizeof(msg) in exchardev_write. */
  const WRITE_BUF_SIZE: nat := 100

  /**
   * exchardev_read's result: strlen(msg) capped at the caller's size when
   * the copy succeeds, -EFAULT otherwise. copyOk says whether copy_to_user
   * copied every byte; a copy of zero bytes cannot fail.
   */
  function ReadResult(size: ULong, copyOk: bool): (r: int)
    ensures !copyOk && size > 0 ==> r == -EFAULT
    ensures copyOk || size == 0 ==> 0 <= r <= size && r <= |KERNEL_MSG| && (r == size || r == |KERNEL_MSG|)
  {
    var bytes := if |KERNEL_MSG| > size then size else |KERNEL_MSG|;
    if !copyOk && bytes > 0 then -EFAULT else bytes
  }

  /**
   * exchardev_write's result: the caller's size capped at the 100-byte
   * buffer when the copy succeeds, -EFAULT otherwise. copyOk says whether
   * copy_from_user copied every byte; a copy of zero bytes cannot fail.
   */
  function WriteResult(size: ULong, copyOk: bool): (r: int)
    ensures !copyOk && size > 0 ==> r == -EFAULT
    ensures copyOk || size == 0 ==> 0 <= r <= size && r <= WRITE_BUF_SIZE && (r == size || r == WRITE_BUF_SIZE)
  {
    var bytes := if size < WRITE_BUF_SIZE then size else WRITE_BUF_SIZE;
    if !copyOk && bytes > 0 then -EFAULT else bytes
  }

  /** The message is 17 bytes, so a successful read returns min(17, size). */
  lemma ReadLength(size: ULong)
    ensures |KERNEL_MSG| == 17
    ensures ReadResult(size, true) == if size < 17 then size else 17
  {
  }

  /** A read or write of zero bytes copies nothing, so it returns 0 whatever the user buffer. */
  lemma EmptyTransfers(copyOk: bool)
    ensures ReadResult(0, copyOk) == 0
    ensures WriteResult(0, copyOk) == 0
  {
  }

  /** A successful write returns min(100, size); the demo's 20-byte message comes back whole. */
  lemma WriteLength(size: ULong)
    ensures WriteResult(size, true) == if size < 100 then size else 100
    ensures WriteResult(|"Hello from userspace"|, true) == 20
  {
  }
}
