/** The dentry cache in front of the file systems: one object per node, created on first use. Resolution
    through the cache answers as resolution in the file systems does, whatever has been cached before. */
module VfsCache {
  import opened VfsPaths

  class Dentry {
    const name: string
    const parent: Dentry?
    const ino: nat
    const dir: bool
    var invalid: bool
    var subdirs: seq<Dentry>
    /** The place the dentry stands for. */
    ghost const node: Node

    constructor (name: string, parent: Dentry, ino: nat, dir: bool)
      ensures this.name == name && this.parent == parent && this.ino == ino && this.dir == dir
      ensures node == Child(parent.node, name, ino, dir) && !invalid && subdirs == []
    {
      this.name, this.parent, this.ino, this.dir := name, parent, ino, dir;
      invalid, subdirs := false, [];
      node := Child(parent.node, name, ino, dir);
    }

    /** `dentry_get_child_with_name`. */
    method ChildWithName(child: string) returns (r: Dentry?)
      ensures child == "." ==> r == this
      ensures child == ".." ==> r == if parent == null then this else parent
      ensures child != "." && child != ".." && r == null ==> forall c :: c in subdirs ==> c.name != child
      ensures child != "." && child != ".." && r != null ==> r in subdirs && r.name == child
    {
      if child == "." {
        return this;
      }
      if child == ".." {
        return if parent != null then parent else this;
      }
      for i := 0 to |subdirs|
        invariant forall j :: 0 <= j < i ==> subdirs[j].name != child
      {
        if subdirs[i].name == child {
          return subdirs[i];
        }
      }
      return null;
    }
  }

  /** A dentry, an error, or success without a dentry. */
  datatype Answer = Reached(d: Dentry) | Refused(error: Error) | Nothing

  class Cache {
    const root: Dentry
    var fs: Files
    ghost var gone: set<Node>
    ghost var all: set<Dentry>
    ghost var at: map<Node, Dentry>

    constructor (root: Dentry, fs: Files)
      requires root.parent == null && root.node == Root(root.ino) && root.dir && root.subdirs == [] && !root.invalid
      ensures Valid() && this.root == root && this.fs == fs && gone == {} && all == {root}
    {
      this.root, this.fs := root, fs;
      gone, all, at := {}, {root}, map[root.node := root];
    }

    ghost function Now(): World
      reads this`gone, this`fs
    {
      World(root.node, fs, gone)
    }

    ghost predicate Placed(d: Dentry)
      reads this, d.parent
    {
      && d.node in at && at[d.node] == d && d.node.ino == d.ino
      && if d.parent == null then d == root && d.dir
         else d.parent in all && d in d.parent.subdirs && d.node == Child(d.parent.node, d.name, d.ino, d.dir)
    }

    /** A valid dentry is what its directory holds under its name; an invalid one has been unlinked. */
    ghost predicate Agrees(d: Dentry)
      reads d, this`gone, this`fs
    {
      if d.invalid then d.node in gone else
      d.node !in gone &&
      (d.parent != null ==>
         (d.parent.ino, d.name) in fs.find && fs.find[(d.parent.ino, d.name)] == Target(d.ino, d.dir) && d.ino in fs.readable)
    }

    ghost predicate Children(d: Dentry)
      reads this, d
    {
      && (forall c :: c in d.subdirs ==> c in all && c.parent == d)
      && (forall i, j :: 0 <= i < j < |d.subdirs| ==> d.subdirs[i].name != d.subdirs[j].name)
    }

    ghost predicate Good(d: Dentry)
      reads this, d, d.parent
    {
      Placed(d) && Agrees(d) && Children(d)
    }

    ghost predicate Valid()
      reads this, all, set d | d in all && d.parent != null :: d.parent
    {
      && root in all && root.parent == null && root.node.Root?
      && (forall d {:trigger Good(d)} :: d in all ==> Good(d))
      && (forall n :: n in at ==> at[n] in all && at[n].node == n)
      && (forall g :: g in gone ==> g in at)
    }

    /** The answer is the dentry of the node found, or the same error. */
    ghost predicate Is(a: Answer, r: Result)
      reads this
    {
      match a
      case Reached(d) => d in all && r == Found(d.node)
      case Refused(e) => r == Failed(e)
      case Nothing => false
    }

    /** The dentry of a node below another one is in its list. */
    lemma Hangs(d: Dentry, parent: Dentry)
      requires Valid() && d in all && parent in all && d.node.Child? && d.node.parent == parent.node
      ensures d in parent.subdirs && d.name == d.node.name
    {
      assert Good(d) && Good(parent) && d.parent != null;
      assert Good(d.parent);
    }

    lemma DirFlag(d: Dentry)
      requires Valid() && d in all
      ensures d.dir <==> IsDir(d.node)
    {
      assert Good(d);
    }

    /** Unlinked nodes hide exactly the names under which an invalid dentry hangs. */
    lemma HiddenIs(parent: Dentry, name: string)
      requires Valid() && parent in all
      ensures Hidden(Now(), parent.node, name) <==> exists c :: c in parent.subdirs && c.name == name && c.invalid
    {
      assert Good(parent);
      if c :| c in parent.subdirs && c.name == name && c.invalid {
        assert Good(c);
      }
      if g :| g in gone && g.Child? && g.parent == parent.node && g.name == name {
        Hangs(at[g], parent);
        assert Good(at[g]);
      }
    }

    /** A cached dentry with ordinary names is where the file system has it. */
    lemma {:induction false} CachedResident(d: Dentry)
      requires Valid() && d in all && Ordinary(Now(), d.node)
      ensures Resident(Now(), d.node)
      decreases d.node
    {
      assert Good(d);
      if d.parent != null {
        CachedResident(d.parent);
        HiddenIs(d.parent, d.name);
        assert Good(d.parent);
        forall c | c in d.parent.subdirs && c.name == d.name ensures !c.invalid { assert c == d; }
      }
    }

    /** Printing the path of a cached dentry and resolving it leads to that very dentry. */
    lemma PathLeadsBack(d: Dentry, from: Dentry, flags: Flags, a: Answer)
      requires Valid() && d in all && Ordinary(Now(), d.node) && PrintedSize(Now(), d.node) <= PATH_MAX + 1
      requires d.node.Child? && d.ino in fs.links ==> flags.nofollow && flags.path
      requires Is(a, ResolveFrom(Now(), from.node, Printed(Now(), d.node), flags, 0))
      ensures a == Reached(d)
    {
      assert Good(d);
      CachedResident(d);
      RoundTrip(Now(), d.node, from.node, flags, 0);
      assert a.Reached? && Good(a.d);
    }

    /** `superblock_get_dentry`. */
    method GetDentry(parent: Dentry, name: string) returns (d: Dentry?)
      requires Valid() && parent in all
      modifies this`all, this`at, parent`subdirs
      ensures Valid() && old(all) <= all && fresh(all - old(all))
      ensures Is(if d == null then Refused(NoFile) else Reached(d), Lookup(Now(), parent.node, name))
    {
      d := parent.ChildWithName(name);
      HiddenIs(parent, name);
      assert Good(parent);
      if d != null {
        assert Good(d);
        if d.invalid {
          d := null;
        }
        return;
      }
      if (parent.ino, name) in fs.find && fs.find[(parent.ino, name)].ino in fs.readable {
        var t := fs.find[(parent.ino, name)];
        d := new Dentry(name, parent, t.ino, t.dir);
        Attach(parent, d);
      }
    }

    /** `dentry_add_subdir` for a new dentry under a name its parent does not have yet. */
    method Attach(parent: Dentry, d: Dentry)
      requires Valid() && parent in all && d !in all
      requires d.parent == parent && d.node == Child(parent.node, d.name, d.ino, d.dir) && d.subdirs == [] && !d.invalid
      requires forall c :: c in parent.subdirs ==> c.name != d.name
      requires Agrees(d)
      modifies this`all, this`at, parent`subdirs
      ensures Valid() && all == old(all) + {d}
    {
      assert d.node !in at by {
        if d.node in at { Hangs(at[d.node], parent); }
      }
      parent.subdirs := parent.subdirs + [d];
      all := all + {d};
      at := at[d.node := d];
      forall e | e in all ensures Good(e) {
        assert e != d ==> old(Good(e));
      }
    }

    /** What unlink and rmdir do to the dentry before they ask the file system: from then on the name leads
        nowhere, whether or not the file system removes the entry. */
    method Invalidate(d: Dentry)
      requires Valid() && d in all && d != root
      modifies this`gone, d`invalid
      ensures Valid() && d.invalid && gone == old(gone) + {d.node}
      ensures d.node.Child? && (d.name != "." && d.name != ".." ==> Lookup(Now(), d.node.parent, d.name) == Failed(NoFile))
    {
      assert Good(d);
      d.invalid := true;
      gone := gone + {d.node};
      forall e | e in all ensures Good(e) {
        assert old(Good(e));
        assert e.node == d.node ==> e == d;
      }
      assert d.node in gone && d.node.name == d.name;
    }

    /** A dentry that is not marked hangs at this place of the file systems. */
    ghost predicate HangsAt(d: Dentry, dir: nat, name: string)
      reads d
    {
      !d.invalid && d.parent != null && d.parent.ino == dir && d.name == name
    }

    /** It says something else than `t`. */
    ghost predicate Contradicts(d: Dentry, dir: nat, name: string, t: Target)
      reads d
    {
      HangsAt(d, dir, name) && Target(d.ino, d.dir) != t
    }

    /** A file system enters a name, with an inode that can be read. The cache still agrees with the file systems exactly
        if no dentry says something else about the name. */
    method Enter(dir: nat, name: string, t: Target)
      requires Valid()
      modifies this`fs
      ensures fs == old(fs).(find := old(fs).find[(dir, name) := t], readable := old(fs).readable + {t.ino})
      ensures Valid() <==> forall d :: d in all ==> !Contradicts(d, dir, name, t)
    {
      fs := fs.(find := fs.find[(dir, name) := t], readable := fs.readable + {t.ino});
      forall d | d in all ensures Good(d) <==> !Contradicts(d, dir, name, t) { assert old(Good(d)); }
    }

    /** A file system removes a name. The cache still agrees exactly if every dentry there has been marked before. */
    method Drop(dir: nat, name: string)
      requires Valid()
      modifies this`fs
      ensures fs == old(fs).(find := old(fs).find - {(dir, name)})
      ensures Valid() <==> forall d :: d in all ==> !HangsAt(d, dir, name)
    {
      fs := fs.(find := fs.find - {(dir, name)});
      forall d | d in all ensures Good(d) <==> !HangsAt(d, dir, name) { assert old(Good(d)); }
    }

    /** The order of unlink: mark the dentry, then have the file system remove the name. */
    method Unlink(d: Dentry)
      requires Valid() && d in all && d.parent != null && d.name != "." && d.name != ".."
      modifies this`gone, this`fs, d`invalid
      ensures (d.parent.ino, d.name) !in fs.find && d.invalid
      ensures Valid() <==> forall e :: e in all ==> !HangsAt(e, d.parent.ino, d.name)
      ensures Lookup(Now(), d.parent.node, d.name) == Failed(NoFile)
    {
      assert Good(d);
      Invalidate(d);
      Drop(d.parent.ino, d.name);
      assert d.node in gone && d.node.parent == d.parent.node;
    }

    /** Only one node hangs under a name in a directory that is cached. */
    lemma OnlyNode(d: Dentry, g: Node)
      requires Valid() && d in all && d.parent != null && g in at && g.Child? && g.parent == d.parent.node && g.name == d.name
      ensures g == d.node
    {
      assert Good(d) && Good(d.parent);
      Hangs(at[g], d.parent);
    }

    /** `dentry_remove_subdir`. */
    method Detach(parent: Dentry, d: Dentry)
      requires d in parent.subdirs && forall i, j :: 0 <= i < j < |parent.subdirs| ==> parent.subdirs[i].name != parent.subdirs[j].name
      modifies parent`subdirs
      ensures forall c :: c in parent.subdirs <==> c in old(parent.subdirs) && c != d
      ensures forall i, j :: 0 <= i < j < |parent.subdirs| ==> parent.subdirs[i].name != parent.subdirs[j].name
    {
      var s, i := parent.subdirs, 0;
      while s[i] != d
        invariant i < |s| && d in s[i..]
        decreases |s| - i
      {
        i := i + 1;
      }
      parent.subdirs := s[..i] + s[i + 1..];
      assert s == s[..i] + [d] + s[i + 1..];
    }

    /** The last close of a marked dentry takes it out of the cache, and the name is looked up in the file system again. The
        dentries below it are not looked at: the cache stays sound exactly if there are none. */
    method Close(d: Dentry)
      requires Valid() && d in all && d.parent != null && d.invalid
      modifies this`all, this`at, this`gone, d.parent`subdirs
      ensures all == old(all) - {d} && gone == old(gone) - {d.node}
      ensures Valid() <==> old(d.subdirs) == []
      ensures !Hidden(Now(), d.parent.node, d.name)
    {
      assert Good(d) && Good(d.parent) && d.parent != d;
      forall g | g in gone && g.Child? && g.parent == d.parent.node && g.name == d.name ensures g == d.node {
        OnlyNode(d, g);
      }
      Detach(d.parent, d);
      all, at, gone := all - {d}, at - {d.node}, gone - {d.node};
      if d.subdirs == [] {
        forall e | e in all ensures Good(e) { assert old(Good(e)); }
      } else {
        var c := d.subdirs[0];
        assert old(Good(c)) && c != d && !Placed(c);
        assert !Good(c);
      }
    }

    /** A name that has been entered is found exactly if no unlinked dentry still holds it. */
    lemma EnteredFound(parent: Dentry, name: string, t: Target)
      requires Valid() && parent in all && name != "." && name != ".."
      requires (parent.ino, name) in fs.find && fs.find[(parent.ino, name)] == t && t.ino in fs.readable
      ensures var r := Lookup(Now(), parent.node, name);
              if exists c :: c in parent.subdirs && c.name == name && c.invalid then r == Failed(NoFile)
              else r == Found(Child(parent.node, name, t.ino, t.dir))
    {
      HiddenIs(parent, name);
      assert Good(parent);
    }

    /** `resolve_next_dentry`. */
    method Next(parent: Dentry, name: string, flags: Flags, depth: nat) returns (a: Answer)
      requires Valid() && parent in all && depth <= SYMLINK_MAX_DEPTH
      modifies this`all, this`at, all`subdirs
      ensures Valid() && old(all) <= all && fresh(all - old(all))
      ensures Is(a, ResolveNext(Now(), parent.node, name, flags, depth))
      decreases SYMLINK_MAX_DEPTH - depth, |name|, 0
    {
      var d := GetDentry(parent, name);
      if d == null {
        return Refused(NoFile);
      }
      assert Good(d);
      a := Reached(d);
      if d.ino in fs.links {
        if depth == SYMLINK_MAX_DEPTH {
          a := Refused(Loop);
        } else if flags.nofollow {
          if !flags.path {
            a := Refused(Loop);
          }
        } else {
          a := From(parent, LinkText(fs.links[d.ino]), NO_FLAGS, depth + 1);
        }
      }
    }

    /** `vfs_dentry_traverse_path_ex`. Without a starting directory only absolute paths are resolved. */
    method From(parent: Dentry?, path: string, flags: Flags, depth: nat) returns (a: Answer)
      requires Valid() && (parent != null ==> parent in all) && depth <= SYMLINK_MAX_DEPTH
      modifies this`all, this`at, all`subdirs
      ensures Valid() && old(all) <= all && fresh(all - old(all))
      ensures parent != null ==> Is(a, ResolveFrom(Now(), parent.node, path, flags, depth))
      ensures parent == null && path != "" && path[0] == '/' ==> Is(a, ResolveFrom(Now(), root.node, path, flags, depth))
      ensures parent == null && path == "" ==> a == Nothing
      ensures parent == null && path != "" && path[0] != '/' ==> a == Refused(NoFile)
      decreases SYMLINK_MAX_DEPTH - depth, |path|, 3
    {
      if path == "" {
        return if parent == null then Nothing else Reached(parent);
      }
      if path[0] == '/' {
        a := TraversePath(root, path[1..], flags, depth);
      } else if parent == null {
        return Refused(NoFile);
      } else {
        a := TraversePath(parent, path, flags, depth);
      }
    }

    /** `dentry_traverse_path`. */
    method TraversePath(parent: Dentry, path: string, flags: Flags, depth: nat) returns (a: Answer)
      requires Valid() && parent in all && depth <= SYMLINK_MAX_DEPTH
      modifies this`all, this`at, all`subdirs
      ensures Valid() && old(all) <= all && fresh(all - old(all))
      ensures Is(a, Traverse(Now(), parent.node, path, flags, depth))
      decreases SYMLINK_MAX_DEPTH - depth, |path|, 2
    {
      if path == "" {
        return Reached(parent);
      } else if |path| > PATH_MAX {
        return Refused(NameTooLong);
      }
      var rest := path;
      var current: Dentry := parent;
      hide Valid, Good, ResolveNext, ResolveFrom;
      while SlashAt(rest) < |rest|
        invariant Valid() && current in all && old(all) <= all && fresh(all - old(all)) && |rest| <= |path|
        invariant Walk(Now(), current.node, rest, flags, depth) == Walk(Now(), parent.node, path, flags, depth)
        decreases |rest|
      {
        var k := SlashAt(rest);
        if k > NAME_MAX {
          return Refused(NameTooLong);
        } else if k > 0 {
          a := Next(current, rest[..k], NO_FLAGS, depth);
          if a.Refused? {
            return;
          }
          current := a.d;
          DirFlag(current);
          if !current.dir {
            return Refused(NotADirectory);
          }
        }
        rest := rest[k + 1..];
      }
      if |rest| > NAME_MAX {
        return Refused(NameTooLong);
      }
      a := Next(current, rest, flags, depth);
    }
  }
}
