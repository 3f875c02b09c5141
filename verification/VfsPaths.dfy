/** Path resolution and path printing, over the file system's own directory and link contents. A node is a
    place in the tree of names; the dentry cache, which keeps one object per node, is in module VfsCache. */
module VfsPaths {

  const NAME_MAX := 255
  const PATH_MAX := 4096
  const SYMLINK_MAX_DEPTH := 9
  const SYMLINK_PATH_BUFFER_MAX := 512

  /** A place in the tree. An inode number stands for a superblock together with a number in it. */
  datatype Node = Root(ino: nat) | Child(parent: Node, name: string, ino: nat, dir: bool)

  predicate IsDir(n: Node) {
    n.Root? || n.dir
  }

  /** What is in a directory under a name: an inode number and whether the entry is marked as a directory. */
  datatype Target = Target(ino: nat, dir: bool)

  /** What the file systems contain: directory entries, inodes that can be read, link texts. */
  datatype Files = Files(find: map<(nat, string), Target>, readable: set<nat>, links: map<nat, string>)

  /** The file systems and the nodes whose dentry has been marked as unlinked. */
  datatype World = World(root: Node, fs: Files, gone: set<Node>)

  datatype Error = NoFile | NotADirectory | NameTooLong | Loop

  datatype Result = Found(node: Node) | Failed(error: Error)

  datatype Flags = Flags(nofollow: bool, path: bool)
  const NO_FLAGS := Flags(false, false)

  /** A name under which an unlinked node still hangs. */
  predicate Hidden(w: World, parent: Node, name: string) {
    exists g :: g in w.gone && g.Child? && g.parent == parent && g.name == name
  }

  /** The node under a name, as `superblock_get_dentry` answers. */
  function Lookup(w: World, parent: Node, name: string): Result {
    if name == "." then
      if parent in w.gone then Failed(NoFile) else Found(parent)
    else if name == ".." then
      var up := if parent.Root? then parent else parent.parent;
      if up in w.gone then Failed(NoFile) else Found(up)
    else if Hidden(w, parent, name) || (parent.ino, name) !in w.fs.find then Failed(NoFile)
    else
      var t := w.fs.find[(parent.ino, name)];
      if t.ino in w.fs.readable then Found(Child(parent, name, t.ino, t.dir)) else Failed(NoFile)
  }

  /** Where the first slash is, or the length of the path. */
  function SlashAt(path: string): (k: nat)
    ensures k <= |path| && (k < |path| ==> path[k] == '/')
    ensures forall i :: 0 <= i < k ==> path[i] != '/'
  {
    if path == "" || path[0] == '/' then 0 else 1 + SlashAt(path[1..])
  }

  function LinkText(s: string): string {
    if |s| <= SYMLINK_PATH_BUFFER_MAX - 1 then s else s[..SYMLINK_PATH_BUFFER_MAX - 1]
  }

  /** `resolve_next_dentry`. */
  function ResolveNext(w: World, parent: Node, name: string, flags: Flags, depth: nat): Result
    requires depth <= SYMLINK_MAX_DEPTH
    decreases SYMLINK_MAX_DEPTH - depth, |name|, 0
  {
    var r := Lookup(w, parent, name);
    if r.Failed? || r.node.ino !in w.fs.links then r
    else if depth == SYMLINK_MAX_DEPTH then Failed(Loop)
    else if flags.nofollow then if flags.path then r else Failed(Loop)
    else ResolveFrom(w, parent, LinkText(w.fs.links[r.node.ino]), NO_FLAGS, depth + 1)
  }

  /** The loop of `dentry_traverse_path`, from some place in the path on. */
  function Walk(w: World, current: Node, path: string, flags: Flags, depth: nat): Result
    requires depth <= SYMLINK_MAX_DEPTH
    decreases SYMLINK_MAX_DEPTH - depth, |path|, 1
  {
    var k := SlashAt(path);
    if k > NAME_MAX then Failed(NameTooLong)
    else if k == |path| then ResolveNext(w, current, path, flags, depth)
    else if k == 0 then Walk(w, current, path[1..], flags, depth)
    else
      var r := ResolveNext(w, current, path[..k], NO_FLAGS, depth);
      if r.Failed? then r
      else if !IsDir(r.node) then Failed(NotADirectory)
      else Walk(w, r.node, path[k + 1..], flags, depth)
  }

  /** `dentry_traverse_path`. */
  function Traverse(w: World, parent: Node, path: string, flags: Flags, depth: nat): Result
    requires depth <= SYMLINK_MAX_DEPTH
    decreases SYMLINK_MAX_DEPTH - depth, |path|, 2
  {
    if path == "" then Found(parent)
    else if |path| > PATH_MAX then Failed(NameTooLong)
    else Walk(w, parent, path, flags, depth)
  }

  /** `vfs_dentry_traverse_path_ex`, with a starting directory. */
  function ResolveFrom(w: World, parent: Node, path: string, flags: Flags, depth: nat): Result
    requires depth <= SYMLINK_MAX_DEPTH
    decreases SYMLINK_MAX_DEPTH - depth, |path|, 3
  {
    if path == "" then Found(parent)
    else if path[0] == '/' then Traverse(w, w.root, path[1..], flags, depth)
    else Traverse(w, parent, path, flags, depth)
  }

  // ----- the nesting depth

  /** Where a path begins. */
  function StartOf(w: World, parent: Node, path: string): Node {
    if path != "" && path[0] == '/' then w.root else parent
  }

  /** What is walked from there. */
  function RestOf(path: string): string {
    if path != "" && path[0] == '/' then path[1..] else path
  }

  /** An answer deeper in the nesting: the same, or that the limit is reached. */
  predicate SameOrLoop(r: Result, deeper: Result) {
    deeper == r || deeper == Failed(Loop)
  }

  /** One level deeper a name is resolved to the same node or fails with the same error, or the limit is reached. */
  lemma {:induction false} DeeperNext(w: World, parent: Node, name: string, flags: Flags, depth: nat)
    requires depth < SYMLINK_MAX_DEPTH
    ensures SameOrLoop(ResolveNext(w, parent, name, flags, depth), ResolveNext(w, parent, name, flags, depth + 1))
    decreases SYMLINK_MAX_DEPTH - depth, |name|, 0
  {
    hide Lookup, LinkText, ResolveFrom;
    var r := Lookup(w, parent, name);
    if r.Found? && r.node.ino in w.fs.links && depth + 1 < SYMLINK_MAX_DEPTH && !flags.nofollow {
      DeeperFrom(w, parent, LinkText(w.fs.links[r.node.ino]), NO_FLAGS, depth + 1);
    }
  }

  lemma {:induction false} DeeperWalk(w: World, current: Node, path: string, flags: Flags, depth: nat)
    requires depth < SYMLINK_MAX_DEPTH
    ensures SameOrLoop(Walk(w, current, path, flags, depth), Walk(w, current, path, flags, depth + 1))
    decreases SYMLINK_MAX_DEPTH - depth, |path|, 1
  {
    hide ResolveNext;
    var k := SlashAt(path);
    if k > NAME_MAX {
    } else if k == |path| {
      DeeperNext(w, current, path, flags, depth);
    } else if k == 0 {
      DeeperWalk(w, current, path[1..], flags, depth);
    } else {
      DeeperNext(w, current, path[..k], NO_FLAGS, depth);
      var r := ResolveNext(w, current, path[..k], NO_FLAGS, depth);
      if r.Found? && IsDir(r.node) { DeeperWalk(w, r.node, path[k + 1..], flags, depth); }
    }
  }

  lemma {:induction false} DeeperFrom(w: World, parent: Node, path: string, flags: Flags, depth: nat)
    requires depth < SYMLINK_MAX_DEPTH
    ensures SameOrLoop(ResolveFrom(w, parent, path, flags, depth), ResolveFrom(w, parent, path, flags, depth + 1))
    decreases SYMLINK_MAX_DEPTH - depth, |path|, 3
  {
    hide Walk;
    if path != "" {
      var from, rest := StartOf(w, parent, path), RestOf(path);
      if rest != "" { DeeperWalk(w, from, rest, flags, depth); }
    }
  }

  /** The same over any number of levels. */
  lemma {:induction false} Deeper(w: World, parent: Node, name: string, flags: Flags, depth: nat, more: nat)
    requires depth + more <= SYMLINK_MAX_DEPTH
    ensures SameOrLoop(ResolveNext(w, parent, name, flags, depth), ResolveNext(w, parent, name, flags, depth + more))
    decreases more
  {
    hide ResolveNext;
    if more > 0 {
      Deeper(w, parent, name, flags, depth, more - 1);
      DeeperNext(w, parent, name, flags, depth + more - 1);
      assert depth + more - 1 + 1 == depth + more;
    }
  }

  // ----- links that lead back to themselves

  /** A directory and a name in it. */
  type Place = (Node, string)

  /** A path that comes to a place of the set: every name before that leads to a directory, through links or not. */
  ghost predicate Meets(w: World, places: set<Place>, current: Node, path: string)
    decreases |path|
  {
    var k := SlashAt(path);
    k <= NAME_MAX &&
    if k == |path| then (current, path) in places
    else if k == 0 then Meets(w, places, current, path[1..])
    else
      (current, path[..k]) in places ||
      var r := ResolveNext(w, current, path[..k], NO_FLAGS, 0);
      r.Found? && IsDir(r.node) && Meets(w, places, r.node, path[k + 1..])
  }

  ghost predicate MeetsFrom(w: World, places: set<Place>, parent: Node, path: string) {
    RestOf(path) != "" && Meets(w, places, StartOf(w, parent, path), RestOf(path))
  }

  /** Every place in the set is a link, and the path the link holds comes to a place in the set. */
  ghost predicate Circular(w: World, places: set<Place>) {
    forall p {:trigger p in places} :: p in places ==> LeadsBack(w, places, p)
  }

  ghost predicate LeadsBack(w: World, places: set<Place>, p: Place) {
    var r := Lookup(w, p.0, p.1);
    r.Found? && r.node.ino in w.fs.links && MeetsFrom(w, places, p.0, LinkText(w.fs.links[r.node.ino]))
  }

  /** The link itself was asked for. */
  predicate WantsLink(flags: Flags) {
    flags.nofollow && flags.path
  }

  ghost predicate AllLoop(w: World, places: set<Place>, flags: Flags, depth: nat)
    requires depth <= SYMLINK_MAX_DEPTH
  {
    forall p {:trigger p in places} :: p in places ==> ResolveNext(w, p.0, p.1, flags, depth) == Failed(Loop)
  }

  /** A path that comes to a place that is refused is refused. */
  lemma {:induction false} WalkMeets(w: World, places: set<Place>, current: Node, path: string, flags: Flags, depth: nat)
    requires depth <= SYMLINK_MAX_DEPTH && Meets(w, places, current, path)
    requires AllLoop(w, places, NO_FLAGS, depth) && AllLoop(w, places, flags, depth)
    ensures Walk(w, current, path, flags, depth) == Failed(Loop)
    decreases |path|
  {
    hide ResolveNext;
    var k := SlashAt(path);
    if k == |path| {
      assert ResolveNext(w, (current, path).0, (current, path).1, flags, depth) == Failed(Loop);
    } else if k == 0 {
      WalkMeets(w, places, current, path[1..], flags, depth);
    } else if (current, path[..k]) in places {
      assert ResolveNext(w, (current, path[..k]).0, (current, path[..k]).1, NO_FLAGS, depth) == Failed(Loop);
    } else {
      Deeper(w, current, path[..k], NO_FLAGS, 0, depth);
      WalkMeets(w, places, ResolveNext(w, current, path[..k], NO_FLAGS, 0).node, path[k + 1..], flags, depth);
    }
  }

  lemma FromMeets(w: World, places: set<Place>, parent: Node, path: string, flags: Flags, depth: nat)
    requires depth <= SYMLINK_MAX_DEPTH && MeetsFrom(w, places, parent, path)
    requires AllLoop(w, places, NO_FLAGS, depth) && AllLoop(w, places, flags, depth)
    ensures ResolveFrom(w, parent, path, flags, depth) == Failed(if |RestOf(path)| > PATH_MAX then NameTooLong else Loop)
  {
    hide Walk, Meets;
    WalkMeets(w, places, StartOf(w, parent, path), RestOf(path), flags, depth);
  }

  /** Following a link of a circle, of whatever length and through whatever directories and other links the circle
      goes, is always refused, at every nesting depth. */
  lemma {:induction false} CircleIsLoop(w: World, places: set<Place>, p: Place, flags: Flags, depth: nat)
    requires Circular(w, places) && p in places && depth <= SYMLINK_MAX_DEPTH && !WantsLink(flags)
    ensures ResolveNext(w, p.0, p.1, flags, depth) == Failed(Loop)
    decreases SYMLINK_MAX_DEPTH - depth
  {
    hide Lookup, MeetsFrom, ResolveFrom;
    assert LeadsBack(w, places, p);
    if depth < SYMLINK_MAX_DEPTH {
      forall q | q in places ensures ResolveNext(w, q.0, q.1, NO_FLAGS, depth + 1) == Failed(Loop) {
        CircleIsLoop(w, places, q, NO_FLAGS, depth + 1);
      }
      var text := LinkText(w.fs.links[Lookup(w, p.0, p.1).node.ino]);
      FromMeets(w, places, p.0, text, NO_FLAGS, depth + 1);
    }
  }

  /** So no path that comes to a place of a circle is ever resolved, unless the link itself is asked for. */
  lemma CircularPathFails(w: World, places: set<Place>, parent: Node, path: string, flags: Flags)
    requires Circular(w, places) && MeetsFrom(w, places, parent, path) && !WantsLink(flags)
    ensures ResolveFrom(w, parent, path, flags, 0) == Failed(if |RestOf(path)| > PATH_MAX then NameTooLong else Loop)
  {
    hide LeadsBack, Meets, ResolveNext;
    forall q | q in places
      ensures ResolveNext(w, q.0, q.1, NO_FLAGS, 0) == ResolveNext(w, q.0, q.1, flags, 0) == Failed(Loop)
    {
      CircleIsLoop(w, places, q, NO_FLAGS, 0);
      CircleIsLoop(w, places, q, flags, 0);
    }
    FromMeets(w, places, parent, path, flags, 0);
  }

  // ----- printing a path

  /** What `dentry_get_absolute_path` appends for a node and its ancestors. */
  function AbsPath(n: Node): string {
    if n.Root? then "" else AbsPath(n.parent) + if n.name == "" then "" else "/" + n.name
  }

  /** What it adds to the required size. */
  function PathSize(n: Node): nat {
    if n.Root? then 0 else PathSize(n.parent) + if n.name == "" then 0 else |n.name| + 1
  }

  /** `vfs_dentry_get_absolute_path`. */
  function Printed(w: World, n: Node): string {
    if n == w.root then "/" else AbsPath(n)
  }

  function PrintedSize(w: World, n: Node): nat {
    if n == w.root then 1 else PathSize(n)
  }

  lemma {:induction false} SizeIsLength(w: World, n: Node)
    ensures |AbsPath(n)| == PathSize(n) && |Printed(w, n)| == PrintedSize(w, n)
  {
    if n.Child? { SizeIsLength(w, n.parent); }
  }

  predicate Plain(name: string) {
    && 0 < |name| <= NAME_MAX && name != "." && name != ".."
    && forall i :: 0 <= i < |name| ==> name[i] != '/'
  }

  /** A node that the file system has, under plain names and through directories that are not links. */
  predicate Resident(w: World, n: Node) {
    if n.Root? then n == w.root else
    && Resident(w, n.parent)
    && IsDir(n.parent) && (n.parent.Child? ==> n.parent.ino !in w.fs.links)
    && Plain(n.name) && Lookup(w, n.parent, n.name) == Found(n)
  }

  /** Ordinary names, directories that are not links above, and nothing unlinked on the way. */
  predicate Ordinary(w: World, n: Node) {
    n !in w.gone &&
    (n.Child? ==>
       Plain(n.name) && IsDir(n.parent) && (n.parent.Child? ==> n.parent.ino !in w.fs.links) && Ordinary(w, n.parent))
  }

  /** No two separators side by side. */
  predicate Single(path: string) {
    forall i :: 0 <= i < |path| - 1 && path[i] == '/' ==> path[i + 1] != '/'
  }

  /** The printed path begins with a separator, has none side by side and none at the end. */
  lemma {:induction false} PrintedClean(w: World, n: Node)
    requires Resident(w, n) && n.Child?
    ensures var path := AbsPath(n); |path| > 1 && path[0] == '/' && path[|path| - 1] != '/' && Single(path)
  {
    hide Lookup;
    var path, before := AbsPath(n), AbsPath(n.parent);
    assert path == before + "/" + n.name;
    assert path[|path| - 1] == n.name[|n.name| - 1];
    if n.parent.Child? { PrintedClean(w, n.parent); }
    assert forall i :: |before| < i < |path| ==> path[i] == n.name[i - |before| - 1];
    assert forall i :: 0 <= i < |before| ==> path[i] == before[i];
    forall i | 0 <= i < |path| - 1 && path[i] == '/' ensures path[i + 1] != '/' {
      if i < |before| - 1 { assert before[i] == '/'; }
    }
  }

  lemma {:induction false} SlashAfter(name: string, rest: string)
    requires forall i :: 0 <= i < |name| ==> name[i] != '/'
    ensures SlashAt(name + "/" + rest) == |name| && SlashAt(name) == |name|
  {
    var path := name + "/" + rest;
    assert path[|name|] == '/' && forall i :: 0 <= i < |name| ==> path[i] == name[i];
    assert SlashAt(path) < |path| && path[SlashAt(path)] == '/';
  }

  /** Walking over one name that is a directory. */
  lemma WalkName(w: World, p: Node, n: Node, rest: string, flags: Flags, depth: nat)
    requires depth <= SYMLINK_MAX_DEPTH && n.Child? && n.parent == p && Plain(n.name)
    requires Lookup(w, p, n.name) == Found(n) && IsDir(n) && n.ino !in w.fs.links
    ensures Walk(w, p, n.name + "/" + rest, flags, depth) == Walk(w, n, rest, flags, depth)
  {
    hide Lookup;
    var path := n.name + "/" + rest;
    SlashAfter(n.name, rest);
    assert path[..|n.name|] == n.name && path[|n.name| + 1..] == rest;
  }

  /** Walking the printed path of a directory leads to it. */
  lemma {:induction false} WalkPrinted(w: World, n: Node, rest: string, flags: Flags, depth: nat)
    requires depth <= SYMLINK_MAX_DEPTH && n.Child? && Resident(w, n) && IsDir(n) && n.ino !in w.fs.links
    ensures AbsPath(n) != "" && AbsPath(n)[0] == '/'
    ensures Walk(w, w.root, AbsPath(n)[1..] + "/" + rest, flags, depth) == Walk(w, n, rest, flags, depth)
  {
    hide Lookup, Walk;
    var p := n.parent;
    WalkName(w, p, n, rest, flags, depth);
    if p.Root? {
      assert AbsPath(n)[1..] == n.name;
    } else {
      WalkPrinted(w, p, n.name + "/" + rest, flags, depth);
      assert AbsPath(n)[1..] + "/" + rest == AbsPath(p)[1..] + "/" + (n.name + "/" + rest);
    }
  }

  lemma WalkEnd(w: World, p: Node, name: string, flags: Flags, depth: nat)
    requires depth <= SYMLINK_MAX_DEPTH && Plain(name)
    ensures Walk(w, p, name, flags, depth) == ResolveNext(w, p, name, flags, depth)
  {
    SlashAfter(name, "");
    hide Lookup, ResolveNext, SlashAt;
  }

  lemma WalkLast(w: World, n: Node, flags: Flags, depth: nat)
    requires depth <= SYMLINK_MAX_DEPTH && n.Child? && Resident(w, n)
    ensures AbsPath(n) != "" && AbsPath(n)[0] == '/' && AbsPath(n)[1..] != ""
    ensures Walk(w, w.root, AbsPath(n)[1..], flags, depth) == ResolveNext(w, n.parent, n.name, flags, depth)
  {
    hide Lookup, Walk, ResolveNext;
    var p := n.parent;
    WalkEnd(w, p, n.name, flags, depth);
    if p.Root? {
      assert AbsPath(n)[1..] == n.name;
    } else {
      WalkPrinted(w, p, n.name, flags, depth);
      assert AbsPath(n)[1..] == AbsPath(p)[1..] + "/" + n.name;
    }
  }

  /** Resolving a printed path gives the node back, from wherever the resolution starts, unless the path is
      too long to be resolved at all. A node that is itself a link is reached with links not followed. */
  lemma RoundTrip(w: World, n: Node, from: Node, flags: Flags, depth: nat)
    requires depth <= SYMLINK_MAX_DEPTH && Resident(w, n)
    requires n.Child? && n.ino in w.fs.links ==> flags.nofollow && flags.path && depth < SYMLINK_MAX_DEPTH
    ensures ResolveFrom(w, from, Printed(w, n), flags, depth) ==
            if PrintedSize(w, n) <= PATH_MAX + 1 then Found(n) else Failed(NameTooLong)
  {
    SizeIsLength(w, n);
    if n.Child? {
      WalkLast(w, n, flags, depth);
      hide Lookup, Walk, Resident, AbsPath, PathSize;
    }
  }

  // ----- paths in two parts

  lemma SlashInFront(a: string, b: string)
    requires a != ""
    ensures SlashAt(a + "/" + b) == SlashAt(a)
  {
    var path, k := a + "/" + b, SlashAt(a);
    assert forall i :: 0 <= i < |a| ==> path[i] == a[i];
    assert path[|a|] == '/';
    assert SlashAt(path) < |path| && path[SlashAt(path)] == '/';
  }

  /** One round of the walk, for a path whose first name ends at `k`. */
  lemma WalkRound(w: World, current: Node, path: string, flags: Flags, depth: nat)
    requires depth <= SYMLINK_MAX_DEPTH
    ensures var k := SlashAt(path);
            Walk(w, current, path, flags, depth) ==
              if k > NAME_MAX then Failed(NameTooLong)
              else if k == |path| then ResolveNext(w, current, path, flags, depth)
              else if k == 0 then Walk(w, current, path[1..], flags, depth)
              else
                var r := ResolveNext(w, current, path[..k], NO_FLAGS, depth);
                if r.Failed? then r
                else if !IsDir(r.node) then Failed(NotADirectory)
                else Walk(w, r.node, path[k + 1..], flags, depth)
  {
    hide ResolveNext, SlashAt;
  }

  /** Resolving "a/b" is resolving a, with links followed, and then b from the directory it leads to. */
  lemma {:induction false} WalkParts(w: World, current: Node, a: string, b: string, flags: Flags, depth: nat)
    requires depth <= SYMLINK_MAX_DEPTH && a != "" && a[|a| - 1] != '/'
    ensures Walk(w, current, a + "/" + b, flags, depth) ==
              var r := Walk(w, current, a, NO_FLAGS, depth);
              if r.Failed? then r else if !IsDir(r.node) then Failed(NotADirectory) else Walk(w, r.node, b, flags, depth)
    decreases |a|
  {
    hide ResolveNext, Walk, SlashAt;
    var path, k := a + "/" + b, SlashAt(a);
    SlashInFront(a, b);
    WalkRound(w, current, path, flags, depth);
    WalkRound(w, current, a, NO_FLAGS, depth);
    if k > NAME_MAX {
    } else if k == |a| {
      assert path[..k] == a && path[k + 1..] == b;
    } else if k == 0 {
      assert path[1..] == a[1..] + "/" + b;
      WalkParts(w, current, a[1..], b, flags, depth);
    } else {
      assert path[..k] == a[..k] && path[k + 1..] == a[k + 1..] + "/" + b;
      var r := ResolveNext(w, current, a[..k], NO_FLAGS, depth);
      if r.Found? { WalkParts(w, r.node, a[k + 1..], b, flags, depth); }
    }
  }

  /** An absolute path is walked from the root. */
  lemma AbsoluteFrom(w: World, parent: Node, path: string, rest: string, flags: Flags, depth: nat)
    requires depth <= SYMLINK_MAX_DEPTH && path == "/" + rest && rest != "" && |rest| <= PATH_MAX
    ensures ResolveFrom(w, parent, path, flags, depth) == Walk(w, w.root, rest, flags, depth)
  {
    hide Walk;
    assert path[1..] == rest;
  }

  lemma ChildAbsPath(w: World, n: Node)
    requires n.Child? && Resident(w, n)
    ensures |AbsPath(n)| == PathSize(n) && |AbsPath(n)| > 1 && AbsPath(n)[0] == '/' && AbsPath(n)[|AbsPath(n)| - 1] != '/'
  {
    hide Lookup, ResolveNext, Walk;
    SizeIsLength(w, n);
    WalkLast(w, n, NO_FLAGS, 0);
    assert AbsPath(n)[|AbsPath(n)| - 1] == n.name[|n.name| - 1];
  }

  lemma Behind(a: string, rest: string)
    requires a != "" && a[0] == '/'
    ensures a + "/" + rest == "/" + (a[1..] + "/" + rest)
  {
  }

  /** Any path behind the printed path of a directory begins there. */
  lemma BehindPrinted(w: World, n: Node, from: Node, rest: string, flags: Flags, depth: nat)
    requires depth <= SYMLINK_MAX_DEPTH && Resident(w, n) && IsDir(n) && (n.Child? ==> n.ino !in w.fs.links)
    requires rest != "" && PathSize(n) + |rest| <= PATH_MAX
    ensures ResolveFrom(w, from, AbsPath(n) + "/" + rest, flags, depth) == Walk(w, n, rest, flags, depth)
  {
    hide Walk, ResolveFrom, AbsPath, PathSize, Lookup;
    if n.Child? {
      ChildAbsPath(w, n);
      Behind(AbsPath(n), rest);
      WalkPrinted(w, n, rest, flags, depth);
      AbsoluteFrom(w, from, AbsPath(n) + "/" + rest, AbsPath(n)[1..] + "/" + rest, flags, depth);
    } else {
      RootPath(n, rest);
      AbsoluteFrom(w, from, AbsPath(n) + "/" + rest, rest, flags, depth);
    }
  }

  lemma RootPath(n: Node, rest: string)
    requires n.Root?
    ensures AbsPath(n) + "/" + rest == "/" + rest && PathSize(n) == 0
  {
  }

  // ----- the dots, and what is not there

  /** A path that ends with two dots leads to the directory above, from the root to the root. */
  lemma UpAgain(w: World, n: Node, from: Node, flags: Flags, depth: nat)
    requires depth <= SYMLINK_MAX_DEPTH && Resident(w, n) && IsDir(n) && (n.Child? ==> n.ino !in w.fs.links)
    requires PathSize(n) + 2 <= PATH_MAX && w.root !in w.gone && w.root.ino !in w.fs.links
    ensures ResolveFrom(w, from, AbsPath(n) + "/..", flags, depth) == Found(if n.Root? then n else n.parent)
  {
    BehindPrinted(w, n, from, "..", flags, depth);
    assert AbsPath(n) + "/" + ".." == AbsPath(n) + "/..";
    var up := if n.Root? then n else n.parent;
    hide AbsPath, PathSize, ResolveFrom;
    NotGone(w, up);
    assert SlashAt("..") == 2;
  }

  /** One dot leads to the directory itself. */
  lemma HereAgain(w: World, n: Node, from: Node, flags: Flags, depth: nat)
    requires depth <= SYMLINK_MAX_DEPTH && Resident(w, n) && IsDir(n) && n.ino !in w.fs.links
    requires PathSize(n) + 1 <= PATH_MAX && w.root !in w.gone
    ensures ResolveFrom(w, from, AbsPath(n) + "/.", flags, depth) == Found(n)
  {
    BehindPrinted(w, n, from, ".", flags, depth);
    assert AbsPath(n) + "/" + "." == AbsPath(n) + "/.";
    hide AbsPath, PathSize, ResolveFrom;
    NotGone(w, n);
    assert SlashAt(".") == 1;
  }

  lemma NotGone(w: World, n: Node)
    requires Resident(w, n) && w.root !in w.gone
    ensures n !in w.gone
  {
  }

  /** A name that is not in a directory, a name that is too long, and anything behind a file, each with its error. */
  lemma ErrorsAtEnd(w: World, n: Node, from: Node, name: string, flags: Flags, depth: nat)
    requires depth <= SYMLINK_MAX_DEPTH && Resident(w, n) && (n.Child? ==> n.ino !in w.fs.links)
    requires name != "" && PathSize(n) + |name| <= PATH_MAX && forall i :: 0 <= i < |name| ==> name[i] != '/'
    ensures IsDir(n) && |name| > 255 ==> ResolveFrom(w, from, AbsPath(n) + "/" + name, flags, depth) == Failed(NameTooLong)
    ensures IsDir(n) && Plain(name) && (n.ino, name) !in w.fs.find ==>
              ResolveFrom(w, from, AbsPath(n) + "/" + name, flags, depth) == Failed(NoFile)
    ensures !IsDir(n) ==> ResolveFrom(w, from, AbsPath(n) + "/" + name, flags, depth) == Failed(NotADirectory)
  {
    SlashAfter(name, "");
    if IsDir(n) {
      BehindPrinted(w, n, from, name, flags, depth);
      hide AbsPath, PathSize, ResolveFrom, SlashAt, Resident;
    } else {
      BehindFile(w, n, from, name, flags, depth);
    }
  }

  lemma BehindFile(w: World, n: Node, from: Node, name: string, flags: Flags, depth: nat)
    requires depth <= SYMLINK_MAX_DEPTH && Resident(w, n) && !IsDir(n) && n.ino !in w.fs.links
    requires PathSize(n) + |name| <= PATH_MAX
    ensures ResolveFrom(w, from, AbsPath(n) + "/" + name, flags, depth) == Failed(NotADirectory)
  {
    hide Walk, ResolveFrom, AbsPath, PathSize, Lookup, ResolveNext;
    ChildAbsPath(w, n);
    Behind(AbsPath(n), name);
    WalkLast(w, n, NO_FLAGS, depth);
    NoLink(w, n, depth);
    var path := AbsPath(n)[1..];
    WalkParts(w, w.root, path, name, flags, depth);
    AbsoluteFrom(w, from, AbsPath(n) + "/" + name, path + "/" + name, flags, depth);
  }

  lemma NoLink(w: World, n: Node, depth: nat)
    requires depth <= SYMLINK_MAX_DEPTH && n.Child? && Resident(w, n) && n.ino !in w.fs.links
    ensures ResolveNext(w, n.parent, n.name, NO_FLAGS, depth) == Found(n)
  {
    hide Lookup;
  }

  // ----- where links lead

  /** A link that holds the path of a node leads there; of a longer text only the first 511 characters count. */
  lemma LinkToPath(w: World, parent: Node, name: string, n: Node, flags: Flags, depth: nat)
    requires depth < SYMLINK_MAX_DEPTH && !flags.nofollow && Resident(w, n) && (n.Child? ==> n.ino !in w.fs.links)
    requires var r := Lookup(w, parent, name);
             && r.Found? && r.node.ino in w.fs.links
             && var text := w.fs.links[r.node.ino];
                if |text| <= 511 then text == Printed(w, n) else text[..511] == Printed(w, n)
    ensures ResolveNext(w, parent, name, flags, depth) == Found(n)
  {
    SizeIsLength(w, n);
    RoundTrip(w, n, parent, NO_FLAGS, depth + 1);
    hide Lookup, Resident, Printed, PrintedSize, ResolveFrom;
  }

  /** A link that holds a relative path leads where that path leads behind the path of the directory of the link. */
  lemma LinkToRelative(w: World, parent: Node, name: string, from: Node, flags: Flags, depth: nat)
    requires depth < SYMLINK_MAX_DEPTH && !flags.nofollow
    requires Resident(w, parent) && IsDir(parent) && (parent.Child? ==> parent.ino !in w.fs.links)
    requires var r := Lookup(w, parent, name);
             && r.Found? && r.node.ino in w.fs.links
             && var text := w.fs.links[r.node.ino];
                text != "" && |text| <= 511 && text[0] != '/' && PathSize(parent) + |text| <= PATH_MAX
    ensures var text := w.fs.links[Lookup(w, parent, name).node.ino];
            ResolveNext(w, parent, name, flags, depth) == ResolveFrom(w, from, AbsPath(parent) + "/" + text, NO_FLAGS, depth + 1)
  {
    var text := w.fs.links[Lookup(w, parent, name).node.ino];
    BehindPrinted(w, parent, from, text, NO_FLAGS, depth + 1);
    RelativeFrom(w, parent, text, NO_FLAGS, depth + 1);
    hide Lookup, Resident, AbsPath, Walk, ResolveFrom;
  }

  lemma RelativeFrom(w: World, parent: Node, path: string, flags: Flags, depth: nat)
    requires depth <= SYMLINK_MAX_DEPTH && path != "" && path[0] != '/' && |path| <= PATH_MAX
    ensures ResolveFrom(w, parent, path, flags, depth) == Walk(w, parent, path, flags, depth)
  {
    hide Walk;
  }

  /** Links that each hold the name of the next, in one directory, and a last one that is no link. */
  ghost predicate IsChain(w: World, parent: Node, names: seq<string>) {
    && names != []
    && (forall i {:trigger names[i]} :: 0 <= i < |names| ==> Plain(names[i]) && Lookup(w, parent, names[i]).Found?)
    && (forall i {:trigger names[i]} :: 0 <= i < |names| - 1 ==> PointsTo(w, parent, names[i], names[i + 1]))
    && Lookup(w, parent, names[|names| - 1]).node.ino !in w.fs.links
  }

  ghost predicate PointsTo(w: World, parent: Node, name: string, next: string) {
    var r := Lookup(w, parent, name);
    r.Found? && r.node.ino in w.fs.links && w.fs.links[r.node.ino] == next
  }

  /** A chain of links leads to its end exactly if it is not longer than the nesting that is left; if it is longer, it is
      refused. */
  lemma {:induction false} ChainLeads(w: World, parent: Node, names: seq<string>, flags: Flags, depth: nat)
    requires IsChain(w, parent, names) && depth <= SYMLINK_MAX_DEPTH && !flags.nofollow
    ensures ResolveNext(w, parent, names[0], flags, depth) ==
              if depth + |names| - 1 <= 9 then Lookup(w, parent, names[|names| - 1]) else Failed(Loop)
    decreases |names|
  {
    hide Lookup, ResolveFrom;
    if |names| > 1 {
      var rest := names[1..];
      assert PointsTo(w, parent, names[0], names[1]);
      assert IsChain(w, parent, rest) by {
        forall i | 0 <= i < |rest| - 1 ensures PointsTo(w, parent, rest[i], rest[i + 1]) {
          assert PointsTo(w, parent, names[i + 1], names[i + 2]);
        }
      }
      if depth < SYMLINK_MAX_DEPTH {
        ChainLeads(w, parent, rest, NO_FLAGS, depth + 1);
        NameFrom(w, parent, names[1], NO_FLAGS, depth + 1);
      }
    }
  }

  lemma NameFrom(w: World, parent: Node, name: string, flags: Flags, depth: nat)
    requires depth <= SYMLINK_MAX_DEPTH && Plain(name)
    ensures ResolveFrom(w, parent, name, flags, depth) == ResolveNext(w, parent, name, flags, depth)
    ensures LinkText(name) == name
  {
    hide ResolveNext, Walk;
    WalkEnd(w, parent, name, flags, depth);
  }

  /** A link at the end of a path that is not to be followed: the link itself if it is asked for, else refused. */
  lemma NotFollowed(w: World, n: Node, from: Node, path: bool, depth: nat)
    requires depth < SYMLINK_MAX_DEPTH && n.Child? && Resident(w, n) && n.ino in w.fs.links && PathSize(n) <= PATH_MAX + 1
    ensures ResolveFrom(w, from, AbsPath(n), Flags(true, path), depth) == if path then Found(n) else Failed(Loop)
  {
    SizeIsLength(w, n);
    WalkLast(w, n, Flags(true, path), depth);
    hide Lookup, Walk, AbsPath, PathSize;
  }

  // ----- circles of one link

  /** A link that names itself behind a dot is a circle. */
  lemma DotCircle(w: World, d: Node, name: string)
    requires Plain(name) && d !in w.gone && IsDir(d) && d.ino !in w.fs.links
    requires var r := Lookup(w, d, name);
             r.Found? && r.node.ino in w.fs.links && w.fs.links[r.node.ino] == "./" + name
    ensures Circular(w, {(d, name)})
  {
    var text := "./" + name;
    SlashAfter(".", name);
    SlashAfter(name, "");
    assert text == "." + "/" + name && text[..1] == "." && text[2..] == name;
    assert Lookup(w, d, ".") == Found(d);
    assert Meets(w, {(d, name)}, d, name);
    assert Meets(w, {(d, name)}, d, text);
  }

  lemma MeetsName(w: World, places: set<Place>, p: Node, n: Node, rest: string)
    requires n.Child? && Plain(n.name) && Lookup(w, p, n.name) == Found(n) && IsDir(n) && n.ino !in w.fs.links
    requires Meets(w, places, n, rest)
    ensures Meets(w, places, p, n.name + "/" + rest)
  {
    hide Lookup, Hidden, LinkText;
    var path := n.name + "/" + rest;
    SlashAfter(n.name, rest);
    assert path[..|n.name|] == n.name && path[|n.name| + 1..] == rest;
    assert ResolveNext(w, p, n.name, NO_FLAGS, 0) == Found(n);
    hide ResolveNext, SlashAt;
  }

  lemma MeetsEnd(w: World, places: set<Place>, p: Node, name: string)
    requires Plain(name) && (p, name) in places
    ensures Meets(w, places, p, name)
  {
    hide ResolveNext;
    SlashAfter(name, "");
  }

  /** The printed path of a node comes to it. */
  lemma {:induction false} MeetsPrinted(w: World, places: set<Place>, n: Node, rest: string)
    requires n.Child? && Resident(w, n) && IsDir(n) && n.ino !in w.fs.links && Meets(w, places, n, rest)
    ensures AbsPath(n) != "" && AbsPath(n)[0] == '/'
    ensures Meets(w, places, w.root, AbsPath(n)[1..] + "/" + rest)
  {
    hide Lookup, Meets;
    var p := n.parent;
    MeetsName(w, places, p, n, rest);
    if p.Root? {
      assert AbsPath(n)[1..] == n.name;
    } else {
      MeetsPrinted(w, places, p, n.name + "/" + rest);
      assert AbsPath(n)[1..] + "/" + rest == AbsPath(p)[1..] + "/" + (n.name + "/" + rest);
    }
  }

  /** It also ends there. */
  lemma MeetsLast(w: World, places: set<Place>, n: Node)
    requires n.Child? && Resident(w, n) && (n.parent, n.name) in places
    ensures AbsPath(n) != "" && AbsPath(n)[0] == '/' && AbsPath(n)[1..] != ""
    ensures Meets(w, places, w.root, AbsPath(n)[1..])
  {
    hide Lookup, Meets;
    var p := n.parent;
    MeetsEnd(w, places, p, n.name);
    if p.Root? {
      assert AbsPath(n)[1..] == n.name;
    } else {
      MeetsPrinted(w, places, p, n.name);
      assert AbsPath(n)[1..] == AbsPath(p)[1..] + "/" + n.name;
    }
  }

  /** A link whose text is its own absolute path, at any depth in the tree, is a circle. */
  lemma OwnPathCircle(w: World, n: Node)
    requires n.Child? && Resident(w, n) && n.ino in w.fs.links && w.fs.links[n.ino] == AbsPath(n)
    requires PathSize(n) < SYMLINK_PATH_BUFFER_MAX
    ensures Circular(w, {(n.parent, n.name)})
  {
    hide Lookup, Meets, AbsPath, PathSize;
    var places := {(n.parent, n.name)};
    SizeIsLength(w, n);
    MeetsLast(w, places, n);
    assert LeadsBack(w, places, (n.parent, n.name));
  }
}
