/** The optional value used for the kernel's nullable pointers and out-values. */
module Wrappers {
  datatype Option<+T> = None | Some(value: T)
}

/**
 * The kernel constants both modules rely on: the errno values the core
 * returns (negated, as the kernel does) and the type and permission bits of
 * umode_t (a 16-bit unsigned value). The C sources write the mode constants
 * in octal; Dafny has no octal literals, so they appear here in hexadecimal
 * with the octal value in the comment.
 */
module KernelDefs {
  const ENOMEM: int := 12
  const EFAULT: int := 14
  const EINVAL: int := 22
  const ENOSPC: int := 28

  /** umode_t */
  type Mode = bv16

  const S_IFMT: Mode := 0xF000     // 0170000
  const S_IFSOCK: Mode := 0xC000   // 0140000
  const S_IFLNK: Mode := 0xA000    // 0120000
  const S_IFREG: Mode := 0x8000    // 0100000
  const S_IFBLK: Mode := 0x6000    // 0060000
  const S_IFDIR: Mode := 0x4000    // 0040000
  const S_IFCHR: Mode := 0x2000    // 0020000
  const S_IFIFO: Mode := 0x1000    // 0010000

  const S_IRWXUGO: Mode := 0x1FF   // 0777
  const S_IALLUGO: Mode := 0xFFF   // 07777: setuid, setgid, sticky and rwx for all

  /** The type bits of a mode. */
  function FileType(mode: Mode): (t: Mode)
    ensures t & !S_IFMT == 0
  {
    mode & S_IFMT
  }

  /** Adding type bits to a mode adds them to its type. */
  lemma TypeOfOr(mode: Mode, ty: Mode)
    requires ty & !S_IFMT == 0
    ensures FileType(mode | ty) == FileType(mode) | ty
  {
  }

  /**
   * mode | S_IFDIR is a directory mode exactly when mode had no type or was
   * a directory mode; it is never a symlink mode.
   */
  lemma OrDirType(mode: Mode)
    ensures FileType(mode | S_IFDIR) == S_IFDIR <==> FileType(mode) == 0 || FileType(mode) == S_IFDIR
    ensures FileType(mode | S_IFDIR) != S_IFLNK
  {
    TypeOfOr(mode, S_IFDIR);
  }

  /**
   * mode | S_IFREG is a regular mode exactly when mode had no type or was a
   * regular mode; it is never a directory mode.
   */
  lemma OrRegType(mode: Mode)
    ensures FileType(mode | S_IFREG) == S_IFREG <==> FileType(mode) == 0 || FileType(mode) == S_IFREG
    ensures FileType(mode | S_IFREG) != S_IFDIR
  {
    TypeOfOr(mode, S_IFREG);
  }

  /**
   * S_IFDIR | m for permission bits m is a directory mode whose permission
   * bits are m again.
   */
  lemma DirModeBits(m: Mode)
    requires m <= S_IALLUGO
    ensures FileType(S_IFDIR | m) == S_IFDIR
    ensures (S_IFDIR | m) & S_IALLUGO == m
  {
  }

  /** Largest value of a C int. */
  const INT_MAX: nat := 0x7FFF_FFFF
}
