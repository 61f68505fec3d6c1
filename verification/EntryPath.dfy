/**
 Path names: what a path means on the disk alone, and how it relates to the chain of parents of a
 cached entry (kernel/fs/fat32.c:880-938).
 */
module EntryPath {
  import opened Bytes
  import opened DirCodec
  import opened DirModel
  import opened EntryState
  import opened EntryDisk

  type Path = seq<seq<byte>>

  /** What stands at a path. */
  datatype Node = Nothing | File | Folder(firstClus: nat)

  /** What a fresh scan of directory `d` finds under `name`. */
  function NodeAt(dirs: map<nat, seq<Slot>>, d: nat, name: seq<byte>): Node {
    if d !in dirs || !Searchable(name) then Nothing
    else
      match Scan(dirs[d], 0, name)
      case Hit(_, info) => if IsDir(info.attr) then Folder(info.firstClus) else File
      case _ => Nothing
  }

  /** Follow `path` from the root by scanning one directory after the other. */
  function Walk(dirs: map<nat, seq<Slot>>, root: nat, path: Path): Node {
    if path == [] then Folder(root)
    else
      match Walk(dirs, root, path[..|path| - 1])
      case Folder(d) => NodeAt(dirs, d, path[|path| - 1])
      case _ => Nothing
  }

  /** The names from the root down to entry `c`. */
  ghost function PathOf(s: S, c: nat): Path
    requires Shape(s) && c <= s.n
    decreases s.rank[c]
  {
    if c == s.n || s.ent[c].parent > s.n || s.rank[s.ent[c].parent] >= s.rank[c] then []
    else PathOf(s, s.ent[c].parent) + [s.ent[c].name]
  }

  /** For an entry that was removed: whether it, its parent and so on, up to the first that was not, are directories. */
  ghost function Kinds(s: S, c: nat): seq<bool>
    requires Shape(s) && c <= s.n
    decreases s.rank[c]
  {
    if c == s.n || s.ent[c].valid == 1 || s.ent[c].parent > s.n || s.rank[s.ent[c].parent] >= s.rank[c] then []
    else [IsDir(s.ent[c].attr)] + Kinds(s, s.ent[c].parent)
  }

  function NodeOf(e: Entry): Node { if IsDir(e.attr) then Folder(e.firstClus) else File }

  /** Following an entry's path on the disk leads to what the entry says. */
  lemma {:induction false} PathIsWalk(s: S, c: nat)
    requires Inv(s) && c <= s.n && s.ent[c].valid == 1
    ensures Walk(s.dirs, s.ent[s.n].firstClus, PathOf(s, c)) == NodeOf(s.ent[c])
    decreases s.rank[c]
  {
    hide Scan, Refs, Lru, Tree;
    if c < s.n {
      var p := s.ent[c].parent;
      assert Attached(s.ent[c]) && s.rank[p] < s.rank[c];
      PathIsWalk(s, p);
      HitIsScan(s, c, p, s.ent[c].name);
      assert OnDisk(s.ent, s.dirs, c) && Clean(s.ent[c]);
      var path := PathOf(s, c);
      assert path[..|path| - 1] == PathOf(s, p);
    }
  }

  // ---------- Entries in use ----------

  /** Entry `c` may be used by a caller: it is referenced, and is the root or was looked up before. */
  ghost predicate Live(s: S, c: nat) {
    Shape(s) && c <= s.n && s.ent[c].ref > 0 && (c == s.n || Attached(s.ent[c]))
  }

  ghost predicate SameNames(s: S, t: S, c: nat)
    requires Shape(s) && Shape(t) && t.n == s.n && c <= s.n
  {
    && t.ent[c].name == s.ent[c].name && t.ent[c].parent == s.ent[c].parent && t.ent[c].attr == s.ent[c].attr
    && t.ent[c].valid == s.ent[c].valid && t.rank[c] == s.rank[c]
  }

  /** What is live in `s` is live in `t`, has the same path and stands for the same directory. */
  ghost predicate LiveKept(s: S, t: S) {
    && Shape(s) && Shape(t) && t.n == s.n && t.ent[t.n].firstClus == s.ent[s.n].firstClus
    && forall c: nat {:trigger Live(s, c)} ::
       Live(s, c) ==> Live(t, c) && SameNames(s, t, c) && t.ent[c].firstClus == s.ent[c].firstClus
  }

  lemma LiveParent(s: S, c: nat)
    requires Core(s) && Live(s, c) && c < s.n
    ensures Live(s, s.ent[c].parent) && s.rank[s.ent[c].parent] < s.rank[c]
  {
    hide Kids, Lru;
    ParentRef(s, c);
    assert Attached(s.ent[c]);
  }

  lemma {:induction false} PathKept(s: S, t: S, c: nat)
    requires Core(s) && LiveKept(s, t) && Live(s, c)
    ensures PathOf(t, c) == PathOf(s, c) && Kinds(t, c) == Kinds(s, c)
    decreases s.rank[c]
  {
    hide Refs, Lru, Parents;
    if c < s.n {
      LiveParent(s, c);
      PathKept(s, t, s.ent[c].parent);
      assert Live(s, s.ent[c].parent);
    }
  }

  ghost predicate NamesKept(s: S, t: S) {
    && Shape(s) && Shape(t) && t.n == s.n
    && forall c {:trigger t.ent[c]} :: 0 <= c <= s.n ==> SameNames(s, t, c)
  }

  lemma {:induction false} PathSame(s: S, t: S, c: nat)
    requires NamesKept(s, t) && c <= s.n
    ensures PathOf(t, c) == PathOf(s, c) && Kinds(t, c) == Kinds(s, c)
    decreases s.rank[c]
  {
    assert SameNames(s, t, c);
    if c < s.n && s.ent[c].parent <= s.n && s.rank[s.ent[c].parent] < s.rank[c] {
      assert t.ent[s.ent[c].parent] == t.ent[s.ent[c].parent];
      PathSame(s, t, s.ent[c].parent);
    } else if c < s.n && s.ent[c].parent <= s.n {
      assert SameNames(s, t, s.ent[c].parent);
    }
  }

  // ---------- Disks with the same names ----------

  /** Every directory left in `dirs'` has the same names for the same files and directories, which are left too. */
  ghost predicate KeepTree(dirs: map<nat, seq<Slot>>, dirs': map<nat, seq<Slot>>, root: nat) {
    && root in dirs'
    && forall d, n {:trigger NodeAt(dirs', d, n)} {:trigger NodeAt(dirs, d, n)} :: d in dirs' ==>
         NodeAt(dirs', d, n) == NodeAt(dirs, d, n)
           && (NodeAt(dirs, d, n).Folder? ==> NodeAt(dirs, d, n).firstClus in dirs')
  }

  lemma KeepTreeTrans(a: map<nat, seq<Slot>>, b: map<nat, seq<Slot>>, c: map<nat, seq<Slot>>, root: nat)
    requires KeepTree(a, b, root) && KeepTree(b, c, root) && c.Keys <= b.Keys
    ensures KeepTree(a, c, root)
  {
    hide NodeAt;
  }

  lemma {:induction false} WalkKept(dirs: map<nat, seq<Slot>>, dirs': map<nat, seq<Slot>>, root: nat, path: Path)
    requires KeepTree(dirs, dirs', root)
    ensures Walk(dirs', root, path) == Walk(dirs, root, path)
    ensures Walk(dirs, root, path).Folder? ==> Walk(dirs, root, path).firstClus in dirs'
  {
    hide NodeAt;
    if path != [] {
      WalkKept(dirs, dirs', root, path[..|path| - 1]);
    }
  }

  // ---------- Splitting and resolving a path name ----------

  const SLASH: byte := 0x2f
  const FAT32_MAX_FILENAME := 255

  function TrimSlash(p: seq<byte>): (r: seq<byte>)
    ensures |r| <= |p|
    ensures r != [] ==> r[0] != SLASH
  {
    if p != [] && p[0] == SLASH then TrimSlash(p[1..]) else p
  }

  /** Length of the first element of `p`. */
  function ElemLen(p: seq<byte>): (r: nat)
    ensures r <= |p|
    ensures p != [] && p[0] != SLASH ==> r > 0
  {
    if p == [] || p[0] == SLASH then 0 else 1 + ElemLen(p[1..])
  }

  /** Elements longer than a file name are cut. */
  function Cut(name: seq<byte>): (r: seq<byte>)
    ensures name != [] ==> r != []
  {
    if |name| > FAT32_MAX_FILENAME then name[..FAT32_MAX_FILENAME] else name
  }

  /** The elements of a path name. */
  function Elems(p: seq<byte>): (r: Path)
    ensures TrimSlash(p) == [] <==> r == []
    decreases |p|
  {
    var q := TrimSlash(p);
    if q == [] then [] else [Cut(q[..ElemLen(q)])] + Elems(q[ElemLen(q)..])
  }

  function Join(names: Path): seq<byte> {
    if names == [] then [] else [SLASH] + names[0] + Join(names[1..])
  }

  predicate ElemOk(name: seq<byte>) {
    1 <= |name| <= FAT32_MAX_FILENAME && forall i :: 0 <= i < |name| ==> name[i] != SLASH
  }

  lemma {:induction false} ElemLenOf(name: seq<byte>, rest: seq<byte>)
    requires forall i :: 0 <= i < |name| ==> name[i] != SLASH
    requires rest == [] || rest[0] == SLASH
    ensures ElemLen(name + rest) == |name|
  {
    if name != [] {
      ElemLenOf(name[1..], rest);
      assert (name + rest)[1..] == name[1..] + rest;
    } else {
      assert name + rest == rest;
    }
  }

  /** Splitting undoes joining. */
  lemma {:induction false} ElemsOfJoin(names: Path)
    requires forall i :: 0 <= i < |names| ==> ElemOk(names[i])
    ensures Elems(Join(names)) == names
  {
    if names != [] {
      ElemsOfJoin(names[1..]);
      var p, rest := Join(names), Join(names[1..]);
      assert ElemOk(names[0]);
      assert p[1..] == names[0] + rest;
      assert TrimSlash(p) == p[1..];
      ElemLenOf(names[0], rest);
      assert p[1..][..|names[0]|] == names[0] && p[1..][|names[0]|..] == rest;
    }
  }

  lemma {:induction false} TrimIdem(p: seq<byte>)
    ensures TrimSlash(TrimSlash(p)) == TrimSlash(p)
  {
    if p != [] && p[0] == SLASH {
      TrimIdem(p[1..]);
    }
  }

  lemma ElemsTrim(p: seq<byte>)
    ensures Elems(TrimSlash(p)) == Elems(p)
  {
    TrimIdem(p);
  }

  /** Where the element `name` leads from directory `at`. */
  function Turn(at: Path, name: seq<byte>): Path {
    if name == DOT then at
    else if name == DOTDOT then (if at == [] then [] else at[..|at| - 1])
    else at + [name]
  }

  /**
   What `lookup_path` should find, on the disk alone: the path that `elems` leads to from `at`, or for
   `parent` the directory that holds the last element.
   */
  function Resolve(dirs: map<nat, seq<Slot>>, root: nat, at: Path, elems: Path, parent: bool): Option<Path>
    decreases |elems|
  {
    if elems == [] then (if parent then None else Some(at))
    else if !Walk(dirs, root, at).Folder? then None
    else if parent && |elems| == 1 then Some(at)
    else if Walk(dirs, root, Turn(at, elems[0])) == Nothing then None
    else Resolve(dirs, root, Turn(at, elems[0]), elems[1..], parent)
  }

  /**
   The same from a directory that was removed, `kinds` telling about it and its removed parents: there only "." and
   ".." lead on.
   */
  function ResolveFrom(dirs: map<nat, seq<Slot>>, root: nat, at: Path, kinds: seq<bool>, elems: Path,
                       parent: bool): Option<Path>
    decreases |elems|
  {
    if kinds == [] then Resolve(dirs, root, at, elems, parent)
    else if elems == [] then (if parent then None else Some(at))
    else if !kinds[0] then None
    else if parent && |elems| == 1 then Some(at)
    else if elems[0] == DOT then ResolveFrom(dirs, root, at, kinds, elems[1..], parent)
    else if elems[0] == DOTDOT then ResolveFrom(dirs, root, Turn(at, DOTDOT), kinds[1..], elems[1..], parent)
    else None
  }

  lemma {:induction false} ResolveFromKept(dirs: map<nat, seq<Slot>>, dirs': map<nat, seq<Slot>>, root: nat,
                                           at: Path, kinds: seq<bool>, elems: Path, parent: bool)
    requires KeepTree(dirs, dirs', root)
    ensures ResolveFrom(dirs', root, at, kinds, elems, parent) == ResolveFrom(dirs, root, at, kinds, elems, parent)
    decreases |elems|
  {
    hide KeepTree, Resolve, Turn;
    ResolveKept(dirs, dirs', root, at, elems, parent);
    if elems != [] && kinds != [] {
      ResolveFromKept(dirs, dirs', root, at, kinds, elems[1..], parent);
      ResolveFromKept(dirs, dirs', root, Turn(at, DOTDOT), kinds[1..], elems[1..], parent);
    }
  }

  lemma {:induction false} ResolveKept(dirs: map<nat, seq<Slot>>, dirs': map<nat, seq<Slot>>, root: nat, at: Path,
                                       elems: Path, parent: bool)
    requires KeepTree(dirs, dirs', root)
    ensures Resolve(dirs', root, at, elems, parent) == Resolve(dirs, root, at, elems, parent)
    decreases |elems|
  {
    hide KeepTree, Walk, Turn;
    WalkKept(dirs, dirs', root, at);
    if elems != [] {
      WalkKept(dirs, dirs', root, Turn(at, elems[0]));
      ResolveKept(dirs, dirs', root, Turn(at, elems[0]), elems[1..], parent);
    }
  }

  // ---------- Ordinary names ----------

  /** A name that stands for itself: not empty, not too long, without a slash, and neither "." nor "..". */
  predicate PlainName(name: seq<byte>) {
    1 <= |name| <= 255 && (forall i :: 0 <= i < |name| ==> name[i] != 47) && name != [46] && name != [46, 46]
  }

  ghost predicate PlainNames(names: Path) { forall i {:trigger names[i]} :: 0 <= i < |names| ==> PlainName(names[i]) }

  /** A path of which nothing is there leads nowhere further on. */
  lemma {:induction false} WalkNothing(dirs: map<nat, seq<Slot>>, root: nat, at: Path, more: Path)
    requires !Walk(dirs, root, at).Folder? && more != []
    ensures Walk(dirs, root, at + more) == Nothing
  {
    var path := at + more;
    assert path[..|path| - 1] == at + more[..|more| - 1];
    if |more| > 1 {
      WalkNothing(dirs, root, at, more[..|more| - 1]);
    } else {
      assert path[..|path| - 1] == at;
    }
  }

  /** Resolving ordinary names is walking them. */
  lemma {:induction false} ResolveWalk(dirs: map<nat, seq<Slot>>, root: nat, at: Path, names: Path)
    requires PlainNames(names) && Walk(dirs, root, at) != Nothing
    ensures Resolve(dirs, root, at, names, false)
         == if Walk(dirs, root, at + names) == Nothing then None else Some(at + names)
    decreases |names|
  {
    hide Walk;
    if names == [] {
      assert at + names == at;
    } else {
      assert PlainName(names[0]);
      var at', rest := at + [names[0]], names[1..];
      assert Turn(at, names[0]) == at' && at' + rest == at + names;
      if !Walk(dirs, root, at).Folder? {
        WalkNothing(dirs, root, at, names);
      } else if Walk(dirs, root, at') != Nothing {
        ResolveWalk(dirs, root, at', rest);
      } else if rest != [] {
        WalkNothing(dirs, root, at', rest);
      } else {
        assert at + names == at';
      }
    }
  }

  /** For the parent: the directory that holds the last name, which itself need not be there. */
  lemma {:induction false} ResolveParent(dirs: map<nat, seq<Slot>>, root: nat, at: Path, names: Path)
    requires PlainNames(names) && names != [] && Walk(dirs, root, at) != Nothing
    ensures var up := at + names[..|names| - 1];
      Resolve(dirs, root, at, names, true) == if Walk(dirs, root, up).Folder? then Some(up) else None
    decreases |names|
  {
    hide Walk;
    var up := at + names[..|names| - 1];
    assert PlainName(names[0]);
    var at', rest := at + [names[0]], names[1..];
    assert Turn(at, names[0]) == at';
    if |names| == 1 {
      assert up == at;
    } else {
      assert at' + rest[..|rest| - 1] == up && up == at + names[..|names| - 1];
      if !Walk(dirs, root, at).Folder? {
        WalkNothing(dirs, root, at, names[..|names| - 1]);
      } else if Walk(dirs, root, at') != Nothing {
        ResolveParent(dirs, root, at', rest);
      } else if |rest| > 1 {
        WalkNothing(dirs, root, at', rest[..|rest| - 1]);
      } else {
        assert up == at';
      }
    }
  }

  /** "." stays, ".." goes up and stays at the root, any other name goes down. */
  lemma TurnNames(at: Path, name: seq<byte>)
    ensures Turn(at, [46]) == at && Turn([], [46, 46]) == [] && Turn(at + [name], [46, 46]) == at
    ensures PlainName(name) ==> Turn(at, name) == at + [name]
  {
  }

  /** Splitting a path name of ordinary names, with or without a slash in front. */
  lemma PlainElems(names: Path)
    requires PlainNames(names) && names != []
    ensures Elems(Join(names)) == names && Join(names)[0] == 47 && |Join(names)| > 1
    ensures Elems(Join(names)[1..]) == names && Join(names)[1] != 47
  {
    assert PlainName(names[0]);
    ElemsOfJoin(names);
    var p := Join(names);
    assert p[1..][0] == names[0][0] && TrimSlash(p) == p[1..];
    ElemsTrim(p);
  }

  /** Slashes in front do not matter, and an element is cut after 255 bytes. */
  lemma ElemsRules(p: seq<byte>, name: seq<byte>)
    ensures Elems([47] + p) == Elems(p)
    ensures name != [] && (forall i :: 0 <= i < |name| ==> name[i] != 47) ==>
      Elems(name) == [if |name| > 255 then name[..255] else name]
  {
    assert ([47] + p)[1..] == p;
    ElemsTrim(p);
    ElemsTrim([47] + p);
    if name != [] && forall i :: 0 <= i < |name| ==> name[i] != 47 {
      ElemLenOf(name, []);
      assert name + [] == name && name[..|name|] == name && name[|name|..] == [];
    }
  }
}
