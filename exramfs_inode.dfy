/**
 * Inodes and the namespace of an exramfs mount, as values.
 *
 * The superblock's inodes form a table keyed by inode number; the directory
 * entries map a (parent inode, name) pair to the child's inode number. This
 * module defines the shape a new inode gets from exramfs_get_inode, the
 * well-formedness and link-count invariants of the table, and lemmas showing
 * that binding a fresh, fully built inode under a directory keeps them.
 */
module Inodes {
  import opened Wrappers
  import opened KernelDefs

  type Ino = nat

  /** The type-dependent part of an inode: what the S_IFMT switch sets up. */
  datatype Kind =
    | Regular
    | Directory
    | Symlink(target: string)   // the bytes page_symlink stored, terminator included
    | Special(dev: nat)         // every other type: init_special_inode(inode, mode, dev)

  datatype Inode = Inode(
    ino: Ino,
    mode: Mode,
    kind: Kind,
    nlink: nat,
    atime: int,
    mtime: int,
    ctime: int)

  /** What exramfs_get_inode promises about the inode it builds. */
  ghost predicate FactoryResult(n: Inode, ino: Ino, mode: Mode, dev: nat, now: int)
  {
    var t := FileType(mode);
    && n.ino == ino
    && n.mode == mode
    && n.atime == now && n.mtime == now && n.ctime == now
    && (n.kind == Regular <==> t == S_IFREG)
    && (n.kind == Directory <==> t == S_IFDIR)
    && (n.kind == Symlink("") <==> t == S_IFLNK)
    && (n.kind == Special(dev) <==> t != S_IFREG && t != S_IFDIR && t != S_IFLNK)
    && n.nlink == (if t == S_IFDIR then 2 else 1)
  }

  /**
   * The inode exramfs_get_inode builds for number `ino`: new_inode's single
   * link, all three times set to `now`, and the set-up its S_IFMT switch
   * chooses (a directory gains a second link, anything that is not a regular
   * file, directory or symlink is a special inode recording `dev`).
   */
  function NewInode(ino: Ino, mode: Mode, dev: nat, now: int): Inode
  {
    var t := FileType(mode);
    var kind :=
      if t == S_IFREG then Regular
      else if t == S_IFDIR then Directory
      else if t == S_IFLNK then Symlink("")
      else Special(dev);
    Inode(ino, mode, kind, if t == S_IFDIR then 2 else 1, now, now, now)
  }

  /** The inode get_inode builds has the shape its switch promises. */
  lemma NewInodeShape(ino: Ino, mode: Mode, dev: nat, now: int)
    ensures FactoryResult(NewInode(ino, mode, dev, now), ino, mode, dev, now)
  {
  }

  /**
   * Adding S_IFDIR to a mode (exramfs_mkdir) yields a directory exactly when
   * the mode had no type bits or was a directory mode already.
   */
  lemma DirModeMakesDirectory(ino: Ino, mode: Mode, dev: nat, now: int)
    ensures NewInode(ino, mode | S_IFDIR, dev, now).kind == Directory
        <==> FileType(mode) == 0 || FileType(mode) == S_IFDIR
  {
    OrDirType(mode);
  }

  /**
   * Adding S_IFREG to a mode (exramfs_create) yields a regular file exactly
   * when the mode had no type bits or was a regular mode already.
   */
  lemma RegModeMakesRegular(ino: Ino, mode: Mode, dev: nat, now: int)
    ensures NewInode(ino, mode | S_IFREG, dev, now).kind == Regular
        <==> FileType(mode) == 0 || FileType(mode) == S_IFREG
  {
    OrRegType(mode);
  }

  /** A directory entry: the name `name` inside directory `dir`. */
  datatype Entry = Entry(dir: Ino, name: string)

  /** The entries of directory d that name subdirectories. */
  ghost function Subdirs(inodes: map<Ino, Inode>, dentries: map<Entry, Ino>, d: Ino): set<Entry>
  {
    set e | e in dentries && e.dir == d && dentries[e] in inodes && inodes[dentries[e]].kind == Directory
  }

  /** Inode numbers match their keys and lie below the next number to hand out. */
  ghost predicate NumbersOk(inodes: map<Ino, Inode>, next: nat)
  {
    forall i :: i in inodes ==> inodes[i].ino == i && i < next
  }

  /** Every entry sits in a live directory and names a live inode. */
  ghost predicate EntriesOk(inodes: map<Ino, Inode>, dentries: map<Entry, Ino>)
  {
    forall e :: e in dentries ==>
      e.dir in inodes && inodes[e.dir].kind == Directory && dentries[e] in inodes
  }

  /** No inode is bound by two entries. */
  ghost predicate Injective(m: map<Entry, Ino>)
  {
    forall e1, e2 :: e1 in m && e2 in m && m[e1] == m[e2] ==> e1 == e2
  }

  /**
   * The root is a live directory that no entry names, and there is one inode
   * more than there are entries (so every inode but the root is bound, see
   * EveryInodeIsBound); without a root there are no inodes.
   */
  ghost predicate RootOk(inodes: map<Ino, Inode>, dentries: map<Entry, Ino>, root: Option<Ino>)
  {
    && (root.None? ==> inodes == map[])
    && (root.Some? ==> root.value in inodes && inodes[root.value].kind == Directory)
    && (root.Some? ==> |inodes| == |dentries| + 1)
    && (forall e :: e in dentries ==> Some(dentries[e]) != root)
  }

  /** The shape of a mounted namespace. */
  ghost predicate WellFormed(inodes: map<Ino, Inode>, dentries: map<Entry, Ino>, root: Option<Ino>, next: nat)
  {
    && NumbersOk(inodes, next)
    && EntriesOk(inodes, dentries)
    && Injective(dentries)
    && RootOk(inodes, dentries, root)
  }

  /**
   * The link-count invariant: a directory has 2 links plus one per
   * subdirectory, and every other inode has exactly one.
   */
  ghost predicate LinkCountsOk(inodes: map<Ino, Inode>, dentries: map<Entry, Ino>)
  {
    forall i :: i in inodes ==> LinkCountAt(inodes, dentries, i)
  }

  /** A symlink is complete once its target ends with the terminator. */
  predicate Populated(n: Inode)
  {
    n.kind.Symlink? ==> |n.kind.target| > 0 && n.kind.target[|n.kind.target| - 1] == '\0'
  }

  /** Every inode that an entry or the root makes reachable is complete. */
  ghost predicate AllPopulated(inodes: map<Ino, Inode>)
  {
    forall i :: i in inodes ==> Populated(inodes[i])
  }

  /**
   * The namespace after binding the new inode n (number `next`) as `name` in
   * directory p, with p's own record replaced by q.
   */
  function BindInodes(inodes: map<Ino, Inode>, next: Ino, n: Inode, p: Ino, q: Inode): map<Ino, Inode>
  {
    inodes[next := n][p := q]
  }

  /** Binding adds exactly the new entry to p's subdirectories, and only if n is one. */
  lemma SubdirsAfterBind(inodes: map<Ino, Inode>, dentries: map<Entry, Ino>, root: Option<Ino>, next: nat,
                         p: Ino, name: string, n: Inode, q: Inode, d: Ino)
    requires WellFormed(inodes, dentries, root, next)
    requires p in inodes && inodes[p].kind == Directory && Entry(p, name) !in dentries
    requires q.kind == inodes[p].kind
    ensures Subdirs(BindInodes(inodes, next, n, p, q), dentries[Entry(p, name) := next], d)
         == Subdirs(inodes, dentries, d) + (if d == p && n.kind == Directory then {Entry(p, name)} else {})
  {
    var inodes' := BindInodes(inodes, next, n, p, q);
    var dentries' := dentries[Entry(p, name) := next];
    var e0 := Entry(p, name);
    assert next !in inodes;
    assert p != next;
    forall e | e in dentries
      ensures dentries[e] != next
      ensures inodes'[dentries[e]].kind == inodes[dentries[e]].kind
    {
    }
    var lhs := Subdirs(inodes', dentries', d);
    var rhs := Subdirs(inodes, dentries, d) + (if d == p && n.kind == Directory then {e0} else {});
    forall e | e in lhs ensures e in rhs {
      if e != e0 {
        assert e in dentries && dentries'[e] == dentries[e];
      }
    }
    forall e | e in rhs ensures e in lhs {
      if e != e0 {
        assert e in dentries && dentries'[e] == dentries[e];
      } else {
        assert dentries'[e] == next && inodes'[next] == n;
      }
    }
  }

  /** A freshly allocated inode number is no directory yet, so has no subdirectories. */
  lemma NoSubdirsOfFresh(inodes: map<Ino, Inode>, dentries: map<Entry, Ino>, root: Option<Ino>, next: nat)
    requires WellFormed(inodes, dentries, root, next)
    ensures Subdirs(inodes, dentries, next) == {}
  {
    forall e | e in dentries ensures e.dir != next {
      assert e.dir in inodes;
    }
  }

  /**
   * Binding a fresh, complete inode keeps the namespace well formed, whatever
   * p's record is replaced by as long as p stays a directory.
   */
  lemma BindKeepsWellFormed(inodes: map<Ino, Inode>, dentries: map<Entry, Ino>, root: Option<Ino>, next: nat,
                            p: Ino, name: string, n: Inode, q: Inode)
    requires WellFormed(inodes, dentries, root, next)
    requires p in inodes && inodes[p].kind == Directory && Entry(p, name) !in dentries
    requires q.kind == Directory && q.ino == p
    requires n.ino == next
    ensures WellFormed(BindInodes(inodes, next, n, p, q), dentries[Entry(p, name) := next], root, next + 1)
  {
    assert next !in inodes;
    assert root.Some?;
    BindKeepsNumbers(inodes, next, n, p, q);
    BindKeepsEntries(inodes, dentries, next, p, name, n, q);
    BindKeepsInjective(inodes, dentries, next, Entry(p, name));
    BindKeepsRoot(inodes, dentries, root, next, p, name, n, q);
  }

  lemma BindKeepsNumbers(inodes: map<Ino, Inode>, next: nat, n: Inode, p: Ino, q: Inode)
    requires NumbersOk(inodes, next)
    requires p in inodes && q.ino == p && n.ino == next
    ensures NumbersOk(BindInodes(inodes, next, n, p, q), next + 1)
  {
  }

  lemma BindKeepsEntries(inodes: map<Ino, Inode>, dentries: map<Entry, Ino>, next: nat,
                         p: Ino, name: string, n: Inode, q: Inode)
    requires EntriesOk(inodes, dentries)
    requires next !in inodes && p in inodes && q.kind == Directory
    ensures EntriesOk(BindInodes(inodes, next, n, p, q), dentries[Entry(p, name) := next])
  {
  }

  lemma BindKeepsInjective(inodes: map<Ino, Inode>, dentries: map<Entry, Ino>, next: nat, e0: Entry)
    requires EntriesOk(inodes, dentries) && Injective(dentries)
    requires next !in inodes && e0 !in dentries
    ensures Injective(dentries[e0 := next])
  {
  }

  lemma BindKeepsRoot(inodes: map<Ino, Inode>, dentries: map<Entry, Ino>, root: Option<Ino>, next: nat,
                      p: Ino, name: string, n: Inode, q: Inode)
    requires RootOk(inodes, dentries, root) && root.Some?
    requires next !in inodes && p in inodes && Entry(p, name) !in dentries && q.kind == Directory
    ensures RootOk(BindInodes(inodes, next, n, p, q), dentries[Entry(p, name) := next], root)
  {
    var inodes' := BindInodes(inodes, next, n, p, q);
    assert inodes'.Keys == inodes.Keys + {next};
    assert root != Some(next);
  }

  /**
   * What binding a fresh inode n as `name` in directory p (whose record
   * becomes q) does to the invariants: the shape always survives; the link
   * counts survive exactly when p's count rises by one for a directory and
   * stays put otherwise; completeness survives exactly when n is complete.
   */
  lemma BindKeeps(inodes: map<Ino, Inode>, dentries: map<Entry, Ino>, root: Option<Ino>, next: nat,
                  p: Ino, name: string, n: Inode, q: Inode)
    requires WellFormed(inodes, dentries, root, next)
    requires p in inodes && inodes[p].kind == Directory && Entry(p, name) !in dentries
    requires q.kind == Directory && q.ino == p
    requires n.ino == next && n.nlink == (if n.kind == Directory then 2 else 1)
    ensures WellFormed(BindInodes(inodes, next, n, p, q), dentries[Entry(p, name) := next], root, next + 1)
    ensures LinkCountsOk(inodes, dentries) ==>
      (LinkCountsOk(BindInodes(inodes, next, n, p, q), dentries[Entry(p, name) := next])
       <==> q.nlink == inodes[p].nlink + (if n.kind == Directory then 1 else 0))
    ensures AllPopulated(inodes) ==> (AllPopulated(BindInodes(inodes, next, n, p, q)) <==> Populated(n))
  {
    BindKeepsWellFormed(inodes, dentries, root, next, p, name, n, q);
    if LinkCountsOk(inodes, dentries) {
      BindLinkCounts(inodes, dentries, root, next, p, name, n, q);
    }
    if AllPopulated(inodes) {
      BindPopulated(inodes, next, n, p, q);
    }
  }

  /**
   * Binding keeps the link counts when the new inode starts with its own
   * count and the parent's count goes up by one exactly when the new inode
   * is a directory.
   */
  lemma BindKeepsLinkCounts(inodes: map<Ino, Inode>, dentries: map<Entry, Ino>, root: Option<Ino>, next: nat,
                            p: Ino, name: string, n: Inode, q: Inode)
    requires WellFormed(inodes, dentries, root, next)
    requires LinkCountsOk(inodes, dentries)
    requires p in inodes && inodes[p].kind == Directory && Entry(p, name) !in dentries
    requires q.kind == Directory
    requires n.nlink == (if n.kind == Directory then 2 else 1)
    requires q.nlink == inodes[p].nlink + (if n.kind == Directory then 1 else 0)
    ensures LinkCountsOk(BindInodes(inodes, next, n, p, q), dentries[Entry(p, name) := next])
  {
    forall i | i in BindInodes(inodes, next, n, p, q)
      ensures LinkCountAt(BindInodes(inodes, next, n, p, q), dentries[Entry(p, name) := next], i)
    {
      BindKeepsLinkCountAt(inodes, dentries, root, next, p, name, n, q, i);
    }
  }

  /** The link-count invariant at one inode. */
  ghost predicate LinkCountAt(inodes: map<Ino, Inode>, dentries: map<Entry, Ino>, i: Ino)
    requires i in inodes
  {
    inodes[i].nlink == (if inodes[i].kind == Directory then 2 + |Subdirs(inodes, dentries, i)| else 1)
  }

  lemma BindKeepsLinkCountAt(inodes: map<Ino, Inode>, dentries: map<Entry, Ino>, root: Option<Ino>, next: nat,
                             p: Ino, name: string, n: Inode, q: Inode, i: Ino)
    requires WellFormed(inodes, dentries, root, next)
    requires LinkCountsOk(inodes, dentries)
    requires p in inodes && inodes[p].kind == Directory && Entry(p, name) !in dentries
    requires q.kind == Directory
    requires n.nlink == (if n.kind == Directory then 2 else 1)
    requires q.nlink == inodes[p].nlink + (if n.kind == Directory then 1 else 0)
    requires i in BindInodes(inodes, next, n, p, q)
    ensures LinkCountAt(BindInodes(inodes, next, n, p, q), dentries[Entry(p, name) := next], i)
  {
    SubdirsAfterBind(inodes, dentries, root, next, p, name, n, q, i);
    if i == next {
      NoSubdirsOfFresh(inodes, dentries, root, next);
    } else if i == p {
      assert Entry(p, name) !in Subdirs(inodes, dentries, p);
      assert LinkCountAt(inodes, dentries, p);
    } else {
      assert LinkCountAt(inodes, dentries, i);
    }
  }

  /**
   * Binding keeps the link counts exactly when the parent's count rises by
   * one for a new directory and stays put otherwise, given that the new
   * inode starts with its own count.
   */
  lemma BindLinkCounts(inodes: map<Ino, Inode>, dentries: map<Entry, Ino>, root: Option<Ino>, next: nat,
                       p: Ino, name: string, n: Inode, q: Inode)
    requires WellFormed(inodes, dentries, root, next)
    requires LinkCountsOk(inodes, dentries)
    requires p in inodes && inodes[p].kind == Directory && Entry(p, name) !in dentries
    requires q.kind == Directory
    requires n.nlink == (if n.kind == Directory then 2 else 1)
    ensures LinkCountsOk(BindInodes(inodes, next, n, p, q), dentries[Entry(p, name) := next])
        <==> q.nlink == inodes[p].nlink + (if n.kind == Directory then 1 else 0)
  {
    if q.nlink == inodes[p].nlink + (if n.kind == Directory then 1 else 0) {
      BindKeepsLinkCounts(inodes, dentries, root, next, p, name, n, q);
    } else {
      var inodes' := BindInodes(inodes, next, n, p, q);
      SubdirsAfterBind(inodes, dentries, root, next, p, name, n, q, p);
      assert Entry(p, name) !in Subdirs(inodes, dentries, p);
      assert LinkCountAt(inodes, dentries, p);
      assert p in inodes' && inodes'[p] == q;
      assert !LinkCountAt(inodes', dentries[Entry(p, name) := next], p);
    }
  }

  /**
   * With a complete table and a complete parent record, the table stays
   * complete exactly when the new inode is.
   */
  lemma BindPopulated(inodes: map<Ino, Inode>, next: Ino, n: Inode, p: Ino, q: Inode)
    requires AllPopulated(inodes) && Populated(q)
    requires next !in inodes && p in inodes
    ensures AllPopulated(BindInodes(inodes, next, n, p, q)) <==> Populated(n)
  {
    assert BindInodes(inodes, next, n, p, q)[next] == n;
  }

  /** The inodes the entries of m name. */
  ghost function Image(m: map<Entry, Ino>): set<Ino>
  {
    set e | e in m :: m[e]
  }

  /** An injective map names as many inodes as it has entries. */
  lemma {:induction false} InjectiveImageSize(m: map<Entry, Ino>)
    requires Injective(m)
    ensures |Image(m)| == |m|
    decreases |m|
  {
    if m != map[] {
      var e :| e in m;
      var m' := m - {e};
      assert Injective(m');
      InjectiveImageSize(m');
      forall x ensures x in Image(m) <==> x in Image(m') + {m[e]} {
        if x in Image(m) {
          var e2 :| e2 in m && m[e2] == x;
          if e2 != e {
            assert e2 in m' && m'[e2] == x;
          }
        }
        if x in Image(m') {
          var e2 :| e2 in m' && m'[e2] == x;
          assert e2 in m && m[e2] == x;
        }
      }
      assert Image(m) == Image(m') + {m[e]};
      assert m[e] !in Image(m');
    }
  }

  /**
   * In a well-formed namespace every live inode other than the root is
   * named by a directory entry (by exactly one, since entries are
   * injective).
   */
  lemma EveryInodeIsBound(inodes: map<Ino, Inode>, dentries: map<Entry, Ino>, root: Option<Ino>, next: nat)
    requires WellFormed(inodes, dentries, root, next)
    ensures forall i :: i in inodes ==> root == Some(i) || exists e :: e in dentries && dentries[e] == i
  {
    if root.Some? {
      var r := root.value;
      var rest := inodes.Keys - {r};
      var img := Image(dentries);
      assert Injective(dentries);
      InjectiveImageSize(dentries);
      assert img <= rest;
      assert |rest| == |inodes.Keys| - 1;
      assert |rest - img| == |rest| - |img|;
      assert rest - img == {};
      forall i | i in inodes && i != r ensures exists e :: e in dentries && dentries[e] == i {
        assert i in img;
      }
    }
  }
}
