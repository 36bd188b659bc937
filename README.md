# exramfs and exchardev in Dafny

This project models two small Linux kernel modules.

**exramfs** is a RAM-backed filesystem. The model covers:

- the inode factory, `exramfs_get_inode`;
- the four directory operations that grow the namespace: `mknod`, `mkdir`, `create` and `symlink`;
- the mount-option parser;
- `fill_super`, which builds the root directory of a mount;
- `kill_sb`, which tears the mount down;
- the one-bit `set_page_dirty` helper.

**exchardev** is a character device with one piece of state, a text colour. The model covers:

- the ioctl state machine that sets and reports the colour;
- the colour-to-escape-sequence table;
- the byte counts that read and write return.

## Structure

| file | module | contents |
|---|---|---|
| `kernel_defs.dfy` | `Wrappers`, `KernelDefs` | `Option`; the errno values; `umode_t` as `bv16` with its type and permission bits; lemmas about adding type bits to a mode |
| `exramfs_options.dfy` | `MountOptions` | strsep tokenising, the `mode=%o` recogniser, octal decoding, the parse as a function over tokens, the parse loop as a method, and the parse's properties |
| `exramfs_inode.dfy` | `Inodes` | inodes and directory entries as values; the inode get_inode builds; the namespace invariants; lemmas that binding a fresh inode keeps them |
| `exramfs.dfy` | `ExRamFs` | the `Page` dirty flag; the `SuperBlock` class with one method per operation; lemmas relating each operation's new state to the invariants |
| `exchardev.dfy` | `ExCharDev` | the colour enum and ioctl numbers; `get_color`; the ioctl as a specification function and as a method of the `Device` class; the read and write byte counts |

### The superblock

A mount is a `SuperBlock` object with these fields:

- `inodes`: the live inodes, keyed by inode number;
- `dentries`: the directory entries, from (parent, name) to the child's inode number;
- `root`: the root inode, held as its number;
- `nextIno`: the `get_next_ino` counter;
- `fsInfo`: the `s_fs_info` pointer and the mode slot it points to;
- `slotLive`: whether that slot is still allocated;
- the superblock constants.

Each operation is a method. Its `ensures` gives the whole new state as a function of the old one, branch by branch. Apart from the method's own `Valid()` (inode numbers are fresh), the namespace invariants are stated on those new states by the module-level lemmas `MknodInvariants`, `MkdirInvariants`, `CreateInvariants`, `SymlinkInvariants` and `RootInvariants`. The invariants are:

- `WellFormed`: entries sit in live directories and name live inodes; no inode has two names; every inode but the root is named.
- `LinkCountsOk`:
  - a directory has 2 links plus one per subdirectory;
  - any other inode has exactly one.
- `AllPopulated`: every symlink's target is stored with its terminator.

### Oracles and parameters

The kernel can refuse an allocation at several points. Each such point is a boolean parameter: `allocOk` for `new_inode`, `slotOk` for `kzalloc`, `inodeOk` and `rootOk` for the root, and `copyOk` for a user copy. `page_symlink`'s status is the parameter `pageErr`. The clock (`current_time`) is the parameter `now`.

### Behaviour worth noting

- `fill_super` fails with `-ENOMEM` when the root cannot be made, whether `new_inode` or the dentry allocation failed (exramfs.c:250-253).
- `fill_super` allocates the mode slot and stores it in `s_fs_info` before it parses the options. A parse error leaves the slot for `kill_sb` to free (exramfs.c:232-241).
- `symlink` returns `-ENOSPC` only when no inode can be had. When the target cannot be stored, it returns `page_symlink`'s own error (exramfs.c:170-175).
- `kill_sb` frees `s_fs_info` without clearing it (exramfs.c:267), so it cannot safely run twice on the same superblock. `KillSb` therefore requires that a non-NULL pointer still points to a live slot; it is not idempotent.
- `mknod` raises the parent's link count for no mode; only `mkdir` does (exramfs.c:154). So `mknod` keeps `LinkCountsOk` exactly when the mode is not a directory mode. `mkdir` keeps it exactly when adding `S_IFDIR` yields a directory, that is, when the caller's mode had no type bits or already had directory bits.
- A mode option must be "mode=" followed by octal digits only. A token such as "mode=777x" or "mode=" is not a mode token, so the parser skips it like any other unknown option: it succeeds and keeps the mode it had, and such a token never causes `-EINVAL` (exramfs.c:212-220). Only a numeral that cannot be decoded as an int gives `-EINVAL` (exramfs.c:215-216). Leading zeros are allowed: "mode=0700" gives 0700.

## Model

| member | source | states |
|---|---|---|
| KernelDefs.OrDirType | vfs/exramfs/exramfs.c:151 | `mode \| S_IFDIR` has directory type exactly when `mode` had no type or directory type, and it is never a symlink type |
| KernelDefs.OrRegType | vfs/exramfs/exramfs.c:163 | `mode \| S_IFREG` has regular type exactly when `mode` had no type or regular type, and it is never a directory type |
| KernelDefs.DirModeBits | vfs/exramfs/exramfs.c:250 | for permission bits `m`, `S_IFDIR \| m` is a directory mode whose permission bits are `m` again |
| MountOptions.StrSep | vfs/exramfs/exramfs.c:207 | one strsep step: the token holds no ','; with no ',' left the token is the whole string; otherwise string = token + "," + rest |
| MountOptions.TokensJoin | vfs/exramfs/exramfs.c:207 | splitting is lossless: joining the tokens with ',' gives the string back, no token holds ',', and there are (number of commas + 1) tokens |
| MountOptions.OnlyCommasGiveEmptyTokens | vfs/exramfs/exramfs.c:207-210 | a string made only of commas splits into empty tokens only |
| MountOptions.OctalDigits | vfs/exramfs/exramfs.c:194 | the numeral of a value is non-empty and made of octal digits |
| MountOptions.OctalRoundTrip | vfs/exramfs/exramfs.c:215 | decoding the octal numeral of any value gives that value back |
| MountOptions.MatchMode | vfs/exramfs/exramfs.c:212-214 | a recognised mode token is exactly "mode=" followed by its non-empty argument |
| MountOptions.MatchOctal | vfs/exramfs/exramfs.c:215-216 | a decoded value fits in a C int |
| MountOptions.Mask | vfs/exramfs/exramfs.c:218 | `option & S_IALLUGO` never has bits outside 07777 |
| MountOptions.ModeTokenDecodes | vfs/exramfs/exramfs.c:212-215 | "mode=" followed by the numeral of any value up to INT_MAX is recognised, and its argument decodes to that value |
| MountOptions.ParseOptions | vfs/exramfs/exramfs.c:198-224 | the strsep loop returns exactly the status and mode of the parse over all tokens, starting from 0755 |
| MountOptions.ParseAppend | vfs/exramfs/exramfs.c:207-221 | parsing a concatenation parses the first part and goes on to the second, from the mode it left, only if the first part succeeded |
| MountOptions.IgnoredTokensChangeNothing | vfs/exramfs/exramfs.c:208-220 | a list of empty or unrecognised tokens succeeds and leaves the mode unchanged |
| MountOptions.IgnoredTokenIsSkipped | vfs/exramfs/exramfs.c:208-220 | dropping an empty or unrecognised token anywhere in the list does not change the result |
| MountOptions.LastModeWins | vfs/exramfs/exramfs.c:214-219 | after a successful prefix, any mode token whose argument decodes to v, followed only by ignored tokens, gives status 0 and v masked with 07777, whatever came before |
| MountOptions.SingleToken | vfs/exramfs/exramfs.c:207 | a string without ',' is handed out by strsep as one token |
| MountOptions.ZeroSevenHundred | vfs/exramfs/exramfs.c:212-218 | "mode=0700" is a mode token, its leading-zero argument decodes to 448, and the mask keeps it whole |
| MountOptions.LeadingZeroMode | vfs/exramfs/exramfs.c:198-224 | the option string "mode=0700" parses to status 0 and mode 0700 |
| MountOptions.NotAModeToken | vfs/exramfs/exramfs.c:212-214 | "mode=777x" is not recognised as a mode token |
| MountOptions.MalformedModeIsIgnored | vfs/exramfs/exramfs.c:198-224 | the option string "mode=777x" parses to status 0 and the default mode 0755: the token is skipped, not rejected |
| MountOptions.BadModeStops | vfs/exramfs/exramfs.c:215-217 | a mode token that fails to decode ends the parse with -EINVAL and the mode the prefix left, whatever follows |
| MountOptions.EmptyOptionsGiveDefault | vfs/exramfs/exramfs.c:205-210 | a NULL option string, an empty one, or one of commas only gives status 0 and mode 0755 |
| MountOptions.ParseErrors | vfs/exramfs/exramfs.c:215-223 | the parse returns only 0 or -EINVAL, and returns -EINVAL exactly when some token is a mode token that fails to decode |
| MountOptions.ParseKeepsPermissions | vfs/exramfs/exramfs.c:218 | starting from permission bits, the mode the parse leaves is permission bits |
| MountOptions.ParsedModeFitsPermissions | vfs/exramfs/exramfs.c:205-218 | whatever the option string, the parsed mode has no bits outside 07777 |
| Inodes.NewInodeShape | vfs/exramfs/exramfs.c:99-131 | the new inode has the given number and mode and all three times set to now; the switch on the type bits chooses regular, directory (two links), empty symlink, or special inode given dev (for every other type, as `init_special_inode` receives it), each exactly for its type; every kind but a directory has one link |
| Inodes.DirModeMakesDirectory | vfs/exramfs/exramfs.c:151 | the inode mkdir builds is a directory exactly when the caller's mode had no type bits or directory bits |
| Inodes.RegModeMakesRegular | vfs/exramfs/exramfs.c:163 | the inode create builds is a regular file exactly when the caller's mode had no type bits or regular bits |
| Inodes.BindKeeps | vfs/exramfs/exramfs.c:139-144 | binding a fresh inode under a directory keeps the namespace well formed; it keeps the link counts exactly when the parent's count rises by one for a directory and stays put otherwise; it keeps every symlink complete exactly when the new inode is complete |
| Inodes.BindLinkCounts | vfs/exramfs/exramfs.c:149-158 | after a bind, the link counts hold exactly when the parent's new count is its old count plus one for a new directory, plus zero otherwise |
| Inodes.BindPopulated | vfs/exramfs/exramfs.c:174-179 | a complete table stays complete after a bind exactly when the inode made reachable is complete |
| Inodes.EveryInodeIsBound | vfs/exramfs/exramfs.c:180-182 | in a well-formed namespace, every live inode other than the root is named by an entry (by exactly one, since entries are injective) |
| ExRamFs.Page.SetPageDirty | vfs/exramfs/exramfs.c:90-97 | the page ends dirty; the result is 1 when it was clean before and 0 when it was already dirty |
| ExRamFs.SuperBlock.GetInode | vfs/exramfs/exramfs.c:99-131 | on allocation failure returns NULL and changes nothing; otherwise takes the next inode number, which is fresh, and adds exactly NewInode for it to the table |
| ExRamFs.SuperBlock.Mknod | vfs/exramfs/exramfs.c:133-147 | -ENOSPC and no change when new_inode fails; otherwise 0, the new inode bound under the name, and the parent's mtime and ctime set to now |
| ExRamFs.SuperBlock.Mkdir | vfs/exramfs/exramfs.c:149-158 | as mknod with S_IFDIR added to the mode; on success the parent's link count also rises by one |
| ExRamFs.SuperBlock.Create | vfs/exramfs/exramfs.c:160-164 | as mknod with S_IFREG added to the mode and device 0; excl has no effect |
| ExRamFs.SuperBlock.Symlink | vfs/exramfs/exramfs.c:166-186 | -ENOSPC if no inode; page_symlink's error, with the inode released and the namespace unchanged, if the target cannot be stored; otherwise a 0777 symlink holding the target and its NUL is bound and the parent stamped |
| ExRamFs.SuperBlock.FillSuper | vfs/exramfs/exramfs.c:226-257 | -ENOMEM with s_fs_info NULL if the slot cannot be allocated; the parse error, with the slot holding the parsed mode, if parsing fails; otherwise the constants are set and the root is a lone directory with mode S_IFDIR plus the parsed mode, or -ENOMEM with no root if it cannot be made |
| ExRamFs.SuperBlock.MakeRoot | vfs/exramfs/exramfs.c:250-254 | d_make_root(get_inode(...)): 0 and a single root inode, or -ENOMEM with no root and no inode left behind when either allocation fails |
| ExRamFs.SuperBlock.KillSb | vfs/exramfs/exramfs.c:265-269 | the slot is freed, every inode and entry is dropped, the root is cleared, and the emptied superblock satisfies all invariants |
| ExRamFs.MknodInvariants | vfs/exramfs/exramfs.c:133-147 | mknod's new state is well formed; it keeps the link counts exactly when the mode is not a directory mode; it keeps every symlink complete exactly when the mode is not a symlink mode |
| ExRamFs.MkdirInvariants | vfs/exramfs/exramfs.c:149-158 | mkdir's new state is well formed and keeps every symlink complete; it keeps the link counts exactly when the caller's mode had no type bits or directory bits |
| ExRamFs.CreateInvariants | vfs/exramfs/exramfs.c:160-164 | create's new state is well formed and always keeps the link counts; it keeps every symlink complete unless the combined mode is a symlink mode |
| ExRamFs.StoredSymlinkShape | vfs/exramfs/exramfs.c:172-175 | the symlink inode has type S_IFLNK, all nine permission bits, one link, and the target with its terminating NUL |
| ExRamFs.SymlinkInvariants | vfs/exramfs/exramfs.c:166-186 | symlink's new state keeps all three invariants |
| ExRamFs.RootInvariants | vfs/exramfs/exramfs.c:250-251 | for a parsed mode, the lone root is a directory with two links, and the one-inode namespace satisfies all three invariants |
| ExCharDev.IoctlNumbers | chardev/exchardev.h:17-18 | SET_COLOR is 0x80047C00 and GET_COLOR is 0x40087C01 (64-bit, generic ioctl layout), so the two commands are distinct |
| ExCharDev.GetColor | chardev/exchardev.c:40-52 | a string is returned exactly for the three colours below LAST_COLOR; NULL for any other value |
| ExCharDev.GetColorEscapes | chardev/exchardev.c:40-52 | default, red and green map to the reset, "ESC[0;31m" and "ESC[0;32m" sequences; each is an ANSI SGR sequence; distinct colours get distinct strings |
| ExCharDev.ToColor | chardev/exchardev.c:120-123 | the cast to color_t keeps arg when it fits in 32 bits and otherwise differs from it by a multiple of 2^32 |
| ExCharDev.IoctlSpec | chardev/exchardev.c:113-138 | the result is 0 or -EFAULT, and a failure changes nothing. SET succeeds exactly when (color_t)arg < LAST_COLOR and then stores it. GET never changes the colour, succeeds exactly when the copy-out does, and then reports the colour. Every other command gives -EFAULT |
| ExCharDev.Device.constructor | chardev/exchardev.c:20 | the static colour starts as COLOR_DEF |
| ExCharDev.Device.Ioctl | chardev/exchardev.c:113-138 | the method's return value, report and new colour are exactly those of IoctlSpec, and the colour stays below LAST_COLOR |
| ExCharDev.IoctlKeepsColorValid | chardev/exchardev.c:119-123 | from a valid colour, any command leaves a valid colour, which get_color maps to a string |
| ExCharDev.SetTruncatesArgument | chardev/exchardev.c:120-123 | SET with arg 2^32 + 2 succeeds and stores COLOR_GREEN; with 2^32 + 3 it fails and keeps the colour |
| ExCharDev.SetThenGet | chardev/exapp.c:34-46 | after a SET of any valid colour, a GET whose copy succeeds returns 0 and reports that colour |
| ExCharDev.DemoSequence | chardev/exapp.c:34-68 | the demo's ioctl sequence on a fresh device succeeds at every step: GET reports green, the device turns red, and it ends green again |
| ExCharDev.ReadResult | chardev/exchardev.c:66-86 | -EFAULT when a non-empty copy fails; otherwise a count no larger than size or the message length, and equal to one of them |
| ExCharDev.ReadLength | chardev/exchardev.c:69-77 | the message is 17 bytes, so a successful read returns min(17, size) |
| ExCharDev.WriteResult | chardev/exchardev.c:88-111 | -EFAULT when a non-empty copy fails; otherwise a count no larger than size or 100, and equal to one of them |
| ExCharDev.EmptyTransfers | chardev/exchardev.c:74-85 | a read or write of size 0 copies zero bytes, which cannot fail, and returns 0 |
| ExCharDev.WriteLength | chardev/exchardev.c:91-99 | a successful write returns min(100, size); the demo's 20-byte message is taken whole |

## Left out

- I/O and the page cache are not modelled. File contents, `generic_file_*`, mmap, splice and `exramfs_mmu_get_unmapped_area` (exramfs.c:81-88) live in the host's storage layer or are a call into the current mm.
- The libfs handlers (lookup, link, unlink, rmdir, rename, setattr, getattr, statfs) are not modelled. They are kernel code outside the module.
- The address-space set-up in get_inode is not modelled: `a_ops`, the gfp mask and `mapping_set_unevictable`. It has no effect on the namespace.
- ExRamFs.SuperBlock.GetInode: `inode_init_owner` is not modelled, so owner, group and the setgid inheritance of the mode are missing. It needs the caller's credentials.
- ExRamFs.SuperBlock.GetInode: `get_next_ino` is a per-superblock counter that never wraps. The kernel's counter is a global, per-CPU-batched 32-bit `unsigned int`, so numbers are not consecutive across mounts and can repeat after wrap-around.
- `dget`, d_instantiate's dentry bookkeeping and the dcache are modelled only as the entry map. The entry reference counts are not modelled.
- The exact grammar of `match_token` and the decoding of `match_octal` are kernel library code that is not part of this model. MountOptions.MatchMode and MountOptions.MatchOctal are a conservative model:
  - a token is a mode token when it is "mode=" followed by one or more octal digits;
  - decoding fails exactly when the value exceeds INT_MAX.
- A token with a character other than an octal digit after "mode=" (such as "mode=777x") is therefore not a mode token in the model: the parse skips it, as MountOptions.MalformedModeIsIgnored shows. A `kmalloc` failure inside `match_octal` is not modelled.
- ExRamFs.SuperBlock.Symlink: page_symlink is the oracle `pageErr`. Its own failure conditions (`-ENAMETOOLONG`, allocation) are not modelled, and the first `l` bytes are assumed stored.
- ExRamFs.SuperBlock.KillSb: `kill_litter_super` is modelled as dropping every inode and entry at once. The order of dput/iput, writeback and the super-block teardown are not modelled.
- Timestamps are modelled as a single value `now` per operation; `current_time`'s granularity is not modelled.
- Locking and concurrency are not modelled. The VFS serialises directory operations, and the module takes no locks.
- The VFS checks that reject a name that already exists, or mknod of a directory mode, are not modelled. They become `requires` (the entry is unbound) or appear as conditions in the invariant lemmas.
- Module and device registration: `init_exramfs`, `exit_exramfs`, `exramfs_mount`, `exchardev_init`, `exchardev_exit`, open and release are registration sequences or only print.
- `printk` output is not modelled, including the colour escape in write's log line.
- ExCharDev.ReadResult: the bytes copied and the unchecked, never-advanced `*offset` the copy starts from (exchardev.c:80) are not modelled; only the returned count is. The same holds for ExCharDev.WriteResult at exchardev.c:102.
- ExCharDev.Device.Ioctl: a GET whose copy-out fails part-way reports nothing. The bytes `copy_to_user` did write before failing are not modelled.
- ExCharDev.IoctlNumbers: the values assume the generic ioctl layout and 8-byte pointers. Other architectures encode the direction bits differently.
- Inodes.WellFormed does not require every inode to be reachable from the root. Two directories naming each other, with no path from the root, satisfy it. The operations only ever bind fresh inodes under a live directory, but reachability is not stated or proved.
- Inodes.NewInode: `init_special_inode` (exramfs.c:113) is kernel code that is not part of this model. It is modelled as recording `dev` for every type that is not regular, directory or symlink. The kernel keeps `i_rdev` only for character and block devices; FIFOs, sockets and modes with no or unknown type bits do not record it.
- `syscalls/testscall.c` is not part of this model.
