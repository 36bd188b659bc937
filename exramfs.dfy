/**
 * exramfs: the superblock of one mount, its inode table and namespace, and
 * the operations of exramfs.c that change them: the inode factory, the four
 * directory operations, fill_super and kill_sb, plus the page-dirty helper.
 *
 * Every point where the kernel can refuse an allocation is a boolean
 * parameter (true: the allocation succeeds), the clock is a parameter, and
 * get_next_ino is a counter held by the superblock.
 */
module ExRamFs {
  import opened Wrappers
  import opened KernelDefs
  import opened Inodes
  import MountOptions

  const EXRAMFS_MAGIC: nat := 0xBAAD_BABE
  /** MAX_LFS_FILESIZE on a 64-bit kernel. */
  const MAX_LFS_FILESIZE: nat := 0x7FFF_FFFF_FFFF_FFFF
  /** PAGE_SIZE and PAGE_SHIFT of a 4 KiB-page kernel. */
  const PAGE_SIZE: nat := 4096
  const PAGE_SHIFT: nat := 12

  /** One page of the page cache, reduced to its dirty flag. */
  class Page {
    var dirty: bool

    constructor (dirty: bool)
      ensures this.dirty == dirty
    {
      this.dirty := dirty;
    }

    /** exramfs_set_page_dirty: marks the page dirty; 1 when it was clean before. */
    method SetPageDirty() returns (r: int)
      modifies this
      ensures dirty
      ensures r == (if old(dirty) then 0 else 1)
    {
      if !dirty {
        var was := dirty;   // TestSetPageDirty returns the old flag
        dirty := true;
        return if was then 0 else 1;
      }
      return 0;
    }
  }

  /** s_maxbytes, s_blocksize, s_blocksize_bits, s_magic and s_time_gran. */
  datatype SbConsts = SbConsts(maxBytes: nat, blockSize: nat, blockSizeBits: nat, magic: nat, timeGran: nat)

  /** The values exramfs_fill_super gives them. */
  const EXRAMFS_CONSTS := SbConsts(MAX_LFS_FILESIZE, PAGE_SIZE, PAGE_SHIFT, EXRAMFS_MAGIC, 1)

  /** A directory's record once its mtime and ctime are set to now. */
  function Touched(d: Inode, now: int): Inode
  {
    d.(mtime := now, ctime := now)
  }

  /** A directory's record after inc_nlink. */
  function Linked(d: Inode): Inode
  {
    d.(nlink := d.nlink + 1)
  }

  /**
   * The inode exramfs_symlink binds: get_inode's symlink inode for mode
   * S_IFLNK | 0777 once page_symlink has stored the target with its
   * terminating NUL.
   */
  function StoredSymlink(ino: Ino, symname: string, now: int): Inode
  {
    NewInode(ino, S_IFLNK | S_IRWXUGO, 0, now).(kind := Kind.Symlink(symname + "\0"))
  }

  class SuperBlock {
    /** The live inodes of the mount, by inode number. */
    var inodes: map<Ino, Inode>
    /** The directory entries: (parent, name) to child inode number. */
    var dentries: map<Entry, Ino>
    /** s_root, as the root inode's number; None before a successful fill_super. */
    var root: Option<Ino>
    /** The next number get_next_ino hands out. */
    var nextIno: nat
    /** s_fs_info: NULL, or a pointer to the mount's mode slot and its content. */
    var fsInfo: Option<Mode>
    /** Whether the slot fsInfo points to is still allocated. */
    var slotLive: bool
    /** The superblock constants fill_super sets. */
    var consts: SbConsts

    /**
     * The structural invariant every operation keeps: inode numbers match
     * their keys and lie below the counter (so the next number is fresh), and
     * a live slot is one s_fs_info points to. The namespace invariants are
     * properties of the states the operations produce, proved in the lemmas
     * after this class.
     */
    ghost predicate Valid()
      reads this
    {
      && NumbersOk(inodes, nextIno)
      && (slotLive ==> fsInfo.Some?)
    }

    /** The namespace invariants: shape, link counts, completed symlinks. */
    ghost predicate Consistent()
      reads this
    {
      && WellFormed(inodes, dentries, root, nextIno)
      && LinkCountsOk(inodes, dentries)
      && AllPopulated(inodes)
    }

    /** A superblock as the VFS hands it to fill_super. */
    ghost predicate Unfilled()
      reads this
    {
      && inodes == map[] && dentries == map[] && root.None?
      && fsInfo.None? && !slotLive
    }

    /** A new superblock; firstIno is where the global inode counter stands. */
    constructor (firstIno: nat)
      ensures Unfilled() && nextIno == firstIno
      ensures Valid() && Consistent()
    {
      inodes, dentries, root := map[], map[], None;
      nextIno := firstIno;
      fsInfo, slotLive := None, false;
      consts := SbConsts(0, 0, 0, 0, 0);
    }

    // -------------------------------------------------------------------
    // Node factory

    /**
     * exramfs_get_inode: allocates an inode (new_inode may fail), gives it
     * the next inode number and sets it up as NewInode describes. The inode
     * joins the table but no entry names it yet.
     */
    method GetInode(mode: Mode, dev: nat, allocOk: bool, now: int) returns (r: Option<Ino>)
      requires Valid()
      modifies this
      ensures Valid()
      ensures r.Some? == allocOk
      ensures r.None? ==> inodes == old(inodes) && nextIno == old(nextIno)
      ensures r.Some? ==>
        && r.value == old(nextIno) && r.value !in old(inodes)
        && nextIno == old(nextIno) + 1
        && inodes == old(inodes)[r.value := NewInode(r.value, mode, dev, now)]
      ensures dentries == old(dentries) && root == old(root)
      ensures fsInfo == old(fsInfo) && slotLive == old(slotLive) && consts == old(consts)
    {
      if !allocOk {
        return None;
      }
      var ino := nextIno;                                  // get_next_ino
      nextIno := nextIno + 1;
      var node := Inode(ino, mode, Regular, 1, now, now, now);   // new_inode starts at one link
      var t := FileType(mode);
      if t == S_IFREG {
        node := node.(kind := Regular);
      } else if t == S_IFDIR {
        node := node.(kind := Directory, nlink := node.nlink + 1);
      } else if t == S_IFLNK {
        node := node.(kind := Kind.Symlink(""));
      } else {                                             // init_special_inode
        node := node.(kind := Special(dev));
      }
      assert node == NewInode(ino, mode, dev, now);
      inodes := inodes[ino := node];
      return Some(ino);
    }

    // -------------------------------------------------------------------
    // Directory operations

    /**
     * exramfs_mknod: builds an inode for `mode` and binds it as `name` in
     * `dir`, then stamps the parent's mtime and ctime. When new_inode fails
     * it returns -ENOSPC and nothing changes. MknodInvariants says what the
     * new namespace keeps.
     */
    method Mknod(dir: Ino, name: string, mode: Mode, dev: nat, allocOk: bool, now: int) returns (err: int)
      requires Valid()
      requires dir in inodes && inodes[dir].kind == Directory
      requires Entry(dir, name) !in dentries
      modifies this
      ensures Valid()
      ensures err == (if allocOk then 0 else -ENOSPC)
      ensures err != 0 ==> inodes == old(inodes) && dentries == old(dentries) && nextIno == old(nextIno)
      ensures err == 0 ==>
        var ino := old(nextIno);
        && nextIno == ino + 1
        && dentries == old(dentries)[Entry(dir, name) := ino]
        && inodes == BindInodes(old(inodes), ino, NewInode(ino, mode, dev, now), dir, Touched(old(inodes)[dir], now))
      ensures root == old(root) && fsInfo == old(fsInfo) && slotLive == old(slotLive) && consts == old(consts)
    {
      var r := GetInode(mode, dev, allocOk, now);
      err := -ENOSPC;
      if r.Some? {
        var ino := r.value;
        dentries := dentries[Entry(dir, name) := ino];      // d_instantiate, dget
        err := 0;
        inodes := inodes[dir := Touched(inodes[dir], now)];
      }
    }

    /**
     * exramfs_mkdir: mknod with S_IFDIR added to the mode; on success the
     * parent gains the link the new directory's ".." entry stands for
     * (MkdirInvariants).
     */
    method Mkdir(dir: Ino, name: string, mode: Mode, allocOk: bool, now: int) returns (err: int)
      requires Valid()
      requires dir in inodes && inodes[dir].kind == Directory
      requires Entry(dir, name) !in dentries
      modifies this
      ensures Valid()
      ensures err == (if allocOk then 0 else -ENOSPC)
      ensures err != 0 ==> inodes == old(inodes) && dentries == old(dentries) && nextIno == old(nextIno)
      ensures err == 0 ==>
        var ino := old(nextIno);
        && nextIno == ino + 1
        && dentries == old(dentries)[Entry(dir, name) := ino]
        && inodes == BindInodes(old(inodes), ino, NewInode(ino, mode | S_IFDIR, 0, now), dir,
                                Linked(Touched(old(inodes)[dir], now)))
      ensures root == old(root) && fsInfo == old(fsInfo) && slotLive == old(slotLive) && consts == old(consts)
    {
      err := Mknod(dir, name, mode | S_IFDIR, 0, allocOk, now);
      if err == 0 {
        inodes := inodes[dir := Linked(inodes[dir])];        // inc_nlink(dir)
      }
    }

    /**
     * exramfs_create: mknod with S_IFREG added to the mode; `excl` is not
     * used (CreateInvariants).
     */
    method Create(dir: Ino, name: string, mode: Mode, excl: bool, allocOk: bool, now: int) returns (err: int)
      requires Valid()
      requires dir in inodes && inodes[dir].kind == Directory
      requires Entry(dir, name) !in dentries
      modifies this
      ensures Valid()
      ensures err == (if allocOk then 0 else -ENOSPC)
      ensures err != 0 ==> inodes == old(inodes) && dentries == old(dentries) && nextIno == old(nextIno)
      ensures err == 0 ==>
        var ino := old(nextIno);
        && nextIno == ino + 1
        && dentries == old(dentries)[Entry(dir, name) := ino]
        && inodes == BindInodes(old(inodes), ino, NewInode(ino, mode | S_IFREG, 0, now), dir,
                                Touched(old(inodes)[dir], now))
      ensures root == old(root) && fsInfo == old(fsInfo) && slotLive == old(slotLive) && consts == old(consts)
    {
      err := Mknod(dir, name, mode | S_IFREG, 0, allocOk, now);
    }

    /**
     * exramfs_symlink: builds an S_IFLNK inode with permissions 0777, stores
     * the target with its terminator through page_symlink (whose status is
     * `pageErr`), and binds the inode only once the target is stored. When
     * page_symlink fails the inode is released and its error returned; the
     * inode number stays consumed (SymlinkInvariants).
     */
    method Symlink(dir: Ino, name: string, symname: string, allocOk: bool, pageErr: int, now: int)
      returns (err: int)
      requires Valid()
      requires dir in inodes && inodes[dir].kind == Directory
      requires Entry(dir, name) !in dentries
      requires '\0' !in symname                           // a C string
      requires pageErr <= 0
      modifies this
      ensures Valid()
      ensures err == (if !allocOk then -ENOSPC else pageErr)
      ensures err != 0 ==> inodes == old(inodes) && dentries == old(dentries)
      ensures nextIno == old(nextIno) + (if allocOk then 1 else 0)
      ensures err == 0 ==>
        var ino := old(nextIno);
        && dentries == old(dentries)[Entry(dir, name) := ino]
        && inodes == BindInodes(old(inodes), ino, StoredSymlink(ino, symname, now), dir,
                                Touched(old(inodes)[dir], now))
      ensures root == old(root) && fsInfo == old(fsInfo) && slotLive == old(slotLive) && consts == old(consts)
    {
      err := -ENOSPC;
      var r := GetInode(S_IFLNK | S_IRWXUGO, 0, allocOk, now);
      if r.Some? {
        var ino := r.value;
        var l := |symname| + 1;                            // strlen(symname) + 1
        err := pageErr;                                    // page_symlink(inode, symname, l)
        if err == 0 {
          inodes := inodes[ino := inodes[ino].(kind := Kind.Symlink((symname + "\0")[..l]))];
          assert (symname + "\0")[..l] == symname + "\0";
          dentries := dentries[Entry(dir, name) := ino];    // d_instantiate, dget
          inodes := inodes[dir := Touched(inodes[dir], now)];
        } else {
          inodes := inodes - {ino};                          // iput
          assert inodes == old(inodes);
        }
      }
    }

    // -------------------------------------------------------------------
    // Superblock lifecycle

    /**
     * exramfs_fill_super: allocates the mode slot and stores it in s_fs_info
     * (kzalloc may fail), parses the options into it, sets the superblock
     * constants and makes the root directory with mode S_IFDIR | parsed mode
     * (MakeRoot; RootInvariants says what the new namespace satisfies).
     */
    method FillSuper(data: Option<string>, slotOk: bool, inodeOk: bool, rootOk: bool, now: int)
      returns (err: int)
      requires Unfilled()
      modifies this
      ensures Valid()
      ensures dentries == map[]
      ensures !slotOk ==>
        && err == -ENOMEM && fsInfo.None? && !slotLive
        && root.None? && inodes == map[] && consts == old(consts) && nextIno == old(nextIno)
      ensures slotOk ==>
        var p := MountOptions.Parse(data);
        && slotLive && fsInfo == Some(p.mode)
        && (p.err != 0 ==>
              && err == p.err
              && root.None? && inodes == map[] && consts == old(consts) && nextIno == old(nextIno))
        && (p.err == 0 ==> consts == EXRAMFS_CONSTS && nextIno == old(nextIno) + (if inodeOk then 1 else 0))
        && (p.err == 0 && inodeOk && rootOk ==>
              && err == 0 && root == Some(old(nextIno))
              && inodes == map[old(nextIno) := NewInode(old(nextIno), S_IFDIR | p.mode, 0, now)])
        && (p.err == 0 && !(inodeOk && rootOk) ==> err == -ENOMEM && root.None? && inodes == map[])
    {
      if !slotOk {                                         // kzalloc failed
        fsInfo := None;
        return -ENOMEM;
      }
      fsInfo, slotLive := Some(0), true;                   // zeroed slot in s_fs_info
      var e, m := MountOptions.ParseOptions(data);
      fsInfo := Some(m);
      if e != 0 {
        return e;
      }
      consts := EXRAMFS_CONSTS;
      err := MakeRoot(S_IFDIR | m, inodeOk, rootOk, now);
    }

    /**
     * The root step of fill_super, d_make_root(exramfs_get_inode(sb, NULL,
     * mode, 0)) followed by the -ENOMEM check: new_inode may fail (inodeOk),
     * and so may the dentry allocation (rootOk), in which case d_make_root
     * releases the inode.
     */
    method MakeRoot(mode: Mode, inodeOk: bool, rootOk: bool, now: int) returns (err: int)
      requires Valid() && inodes == map[] && dentries == map[] && root.None?
      modifies this
      ensures Valid() && dentries == map[]
      ensures nextIno == old(nextIno) + (if inodeOk then 1 else 0)
      ensures inodeOk && rootOk ==>
        && err == 0 && root == Some(old(nextIno))
        && inodes == map[old(nextIno) := NewInode(old(nextIno), mode, 0, now)]
      ensures !(inodeOk && rootOk) ==> err == -ENOMEM && root.None? && inodes == map[]
      ensures fsInfo == old(fsInfo) && slotLive == old(slotLive) && consts == old(consts)
    {
      var r := GetInode(mode, 0, inodeOk, now);
      if r.None? {                                         // d_make_root(NULL)
        return -ENOMEM;
      }
      if !rootOk {                                         // d_make_root releases the inode
        inodes := inodes - {r.value};
        return -ENOMEM;
      }
      root := r;
      return 0;
    }

    /**
     * exramfs_kill_sb: frees the slot s_fs_info points to (kfree of NULL does
     * nothing) and lets kill_litter_super drop every inode and entry. The
     * pointer itself is left as it was, so the caller must not run it again
     * on a superblock whose slot it already freed.
     */
    method KillSb()
      requires fsInfo.Some? ==> slotLive
      modifies this
      ensures Valid() && Consistent()
      ensures !slotLive && fsInfo == old(fsInfo)
      ensures inodes == map[] && dentries == map[] && root.None?
      ensures nextIno == old(nextIno) && consts == old(consts)
    {
      slotLive := false;                                   // kfree(sb->s_fs_info)
      inodes, dentries, root := map[], map[], None;        // kill_litter_super
    }
  }

  // ---------------------------------------------------------------------
  // What the operations keep

  /**
   * mknod keeps the namespace well formed; it keeps the link counts exactly
   * when the mode is not a directory mode (the parent's count is mkdir's
   * job), and keeps every symlink complete exactly when the mode is not a
   * symlink mode (the target is symlink's job).
   */
  lemma MknodInvariants(inodes: map<Ino, Inode>, dentries: map<Entry, Ino>, root: Option<Ino>, next: nat,
                        dir: Ino, name: string, mode: Mode, dev: nat, now: int)
    requires WellFormed(inodes, dentries, root, next)
    requires dir in inodes && inodes[dir].kind == Directory && Entry(dir, name) !in dentries
    ensures var inodes' := BindInodes(inodes, next, NewInode(next, mode, dev, now), dir, Touched(inodes[dir], now));
            var dentries' := dentries[Entry(dir, name) := next];
            && WellFormed(inodes', dentries', root, next + 1)
            && (LinkCountsOk(inodes, dentries) ==> (LinkCountsOk(inodes', dentries') <==> FileType(mode) != S_IFDIR))
            && (AllPopulated(inodes) ==> (AllPopulated(inodes') <==> FileType(mode) != S_IFLNK))
  {
    BindKeeps(inodes, dentries, root, next, dir, name, NewInode(next, mode, dev, now), Touched(inodes[dir], now));
  }

  /**
   * mkdir keeps the namespace well formed and every symlink complete; it
   * keeps the link counts exactly when adding S_IFDIR makes a directory,
   * that is when the mode had no type bits or was a directory mode.
   */
  lemma MkdirInvariants(inodes: map<Ino, Inode>, dentries: map<Entry, Ino>, root: Option<Ino>, next: nat,
                        dir: Ino, name: string, mode: Mode, now: int)
    requires WellFormed(inodes, dentries, root, next)
    requires dir in inodes && inodes[dir].kind == Directory && Entry(dir, name) !in dentries
    ensures var inodes' := BindInodes(inodes, next, NewInode(next, mode | S_IFDIR, 0, now), dir,
                                      Linked(Touched(inodes[dir], now)));
            var dentries' := dentries[Entry(dir, name) := next];
            && WellFormed(inodes', dentries', root, next + 1)
            && (LinkCountsOk(inodes, dentries) ==>
                  (LinkCountsOk(inodes', dentries') <==> FileType(mode) == 0 || FileType(mode) == S_IFDIR))
            && (AllPopulated(inodes) ==> AllPopulated(inodes'))
  {
    var n := NewInode(next, mode | S_IFDIR, 0, now);
    DirModeMakesDirectory(next, mode, 0, now);
    OrDirType(mode);
    BindKeeps(inodes, dentries, root, next, dir, name, n, Linked(Touched(inodes[dir], now)));
  }

  /**
   * create keeps the namespace well formed and the link counts whatever the
   * mode (adding S_IFREG never yields a directory mode), and keeps every
   * symlink complete unless the combined mode is a symlink mode.
   */
  lemma CreateInvariants(inodes: map<Ino, Inode>, dentries: map<Entry, Ino>, root: Option<Ino>, next: nat,
                         dir: Ino, name: string, mode: Mode, now: int)
    requires WellFormed(inodes, dentries, root, next)
    requires dir in inodes && inodes[dir].kind == Directory && Entry(dir, name) !in dentries
    ensures var inodes' := BindInodes(inodes, next, NewInode(next, mode | S_IFREG, 0, now), dir,
                                      Touched(inodes[dir], now));
            var dentries' := dentries[Entry(dir, name) := next];
            && WellFormed(inodes', dentries', root, next + 1)
            && (LinkCountsOk(inodes, dentries) ==> LinkCountsOk(inodes', dentries'))
            && (AllPopulated(inodes) ==> (AllPopulated(inodes') <==> FileType(mode | S_IFREG) != S_IFLNK))
  {
    OrRegType(mode);
    MknodInvariants(inodes, dentries, root, next, dir, name, mode | S_IFREG, 0, now);
  }

  /** The symlink inode has type S_IFLNK, all permissions, one link and the terminated target. */
  lemma StoredSymlinkShape(ino: Ino, symname: string, now: int)
    ensures var n := StoredSymlink(ino, symname, now);
            && FileType(n.mode) == S_IFLNK && n.mode & S_IRWXUGO == S_IRWXUGO
            && n.nlink == 1 && n.kind == Kind.Symlink(symname + "\0")
            && Populated(n)
  {
  }

  /** symlink keeps all three invariants: the new inode is a complete non-directory. */
  lemma SymlinkInvariants(inodes: map<Ino, Inode>, dentries: map<Entry, Ino>, root: Option<Ino>, next: nat,
                          dir: Ino, name: string, symname: string, now: int)
    requires WellFormed(inodes, dentries, root, next)
    requires dir in inodes && inodes[dir].kind == Directory && Entry(dir, name) !in dentries
    ensures var inodes' := BindInodes(inodes, next, StoredSymlink(next, symname, now), dir,
                                      Touched(inodes[dir], now));
            var dentries' := dentries[Entry(dir, name) := next];
            && WellFormed(inodes', dentries', root, next + 1)
            && (LinkCountsOk(inodes, dentries) ==> LinkCountsOk(inodes', dentries'))
            && (AllPopulated(inodes) ==> AllPopulated(inodes'))
  {
    StoredSymlinkShape(next, symname, now);
    BindKeeps(inodes, dentries, root, next, dir, name, StoredSymlink(next, symname, now), Touched(inodes[dir], now));
  }

  /**
   * The namespace fill_super builds from a parsed mode: a lone root
   * directory with two links (its permission bits are the mode, by
   * DirModeBits), which satisfies all three invariants.
   */
  lemma RootInvariants(ino: Ino, m: Mode, now: int)
    requires m <= S_IALLUGO
    ensures var inodes := map[ino := NewInode(ino, S_IFDIR | m, 0, now)];
            && inodes[ino].kind == Directory && inodes[ino].nlink == 2
            && WellFormed(inodes, map[], Some(ino), ino + 1)
            && LinkCountsOk(inodes, map[])
            && AllPopulated(inodes)
  {
    DirModeBits(m);
    LoneRoot(NewInode(ino, S_IFDIR | m, 0, now));
  }

  /** A table holding only a root directory with two links is consistent. */
  lemma LoneRoot(n: Inode)
    requires n.kind == Directory && n.nlink == 2
    ensures WellFormed(map[n.ino := n], map[], Some(n.ino), n.ino + 1)
    ensures LinkCountsOk(map[n.ino := n], map[])
    ensures AllPopulated(map[n.ino := n])
  {
    assert Subdirs(map[n.ino := n], map[], n.ino) == {};
  }
}
