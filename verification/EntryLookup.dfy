/**
 `lookup_path` (kernel/fs/fat32.c:880-938): what it returns is what following the path on the disk
 alone leads to, and it leaves exactly one new reference behind, or none when it fails.
 */
module EntryLookup {
  import opened Bytes
  import opened DirCodec
  import opened DirModel
  import opened EntryState
  import opened EntryDisk
  import opened EntryPath
  import opened EntryCache

  lemma ElemsSplit(q: seq<byte>)
    requires q != [] && q[0] != SLASH
    ensures Elems(q) == [Cut(q[..ElemLen(q)])] + Elems(q[ElemLen(q)..])
  {
  }

  lemma TrimmedElems(q: seq<byte>)
    requires q == [] || q[0] != SLASH
    ensures q == [] <==> Elems(q) == []
  {
  }

  /** `skipelem`: the first element of a path and what follows it. */
  method SkipElem(path: seq<byte>) returns (rest: Option<seq<byte>>, name: seq<byte>)
    ensures rest.None? <==> Elems(path) == []
    ensures rest.Some? ==> name != [] && Elems(path) == [name] + Elems(rest.value) && |rest.value| < |path|
    ensures rest.Some? ==> (rest.value == [] <==> Elems(rest.value) == [])
  {
    hide Elems, TrimSlash;
    var i := SkipSlashes(path, 0);
    assert path[0..] == path;
    ElemsTrim(path);
    TrimmedElems(path[i..]);
    if i == |path| {
      return None, [];
    }
    ElemsSplit(path[i..]);
    var j := i;
    while j < |path| && path[j] != SLASH
      invariant i <= j <= |path|
      invariant ElemLen(path[i..]) == j - i + ElemLen(path[j..])
    {
      assert path[j..][1..] == path[j + 1..];
      j := j + 1;
    }
    var len := j - i;
    assert ElemLen(path[i..]) == len;
    hide ElemLen;
    assert path[i..][..len] == path[i..j] && path[i..][len..] == path[j..];
    if len > FAT32_MAX_FILENAME {
      len := FAT32_MAX_FILENAME;
    }
    name := path[i..i + len];
    assert name == Cut(path[i..j]);
    var k := SkipSlashes(path, j);
    ElemsTrim(path[j..]);
    TrimmedElems(path[k..]);
    rest := Some(path[k..]);
  }

  method SkipSlashes(path: seq<byte>, start: nat) returns (i: nat)
    requires start <= |path|
    ensures start <= i <= |path| && path[i..] == TrimSlash(path[start..])
  {
    i := start;
    while i < |path| && path[i] == SLASH
      invariant start <= i <= |path| && TrimSlash(path[i..]) == TrimSlash(path[start..])
    {
      assert path[i..][1..] == path[i + 1..];
      i := i + 1;
    }
  }

  // ---------- References during a lookup ----------

  /** Entries that had outside holders are still in use, under the same path. */
  ghost predicate HeldKept(s: S, t: S) {
    && Shape(s) && Shape(t) && t.n == s.n
    && forall c: nat {:trigger Live(s, c)} :: Live(s, c) && s.holders[c] > 0 ==> Live(t, c) && SameNames(s, t, c)
  }

  /** Since `s` nothing was gained or lost. */
  ghost predicate Back(s: S, t: S) {
    HeldKept(s, t) && t.holders == s.holders && SameDisk(s, t)
  }

  /** Since `s` exactly one reference to `e` was gained. */
  ghost predicate With(s: S, t: S, e: nat) {
    HeldKept(s, t) && e <= s.n && t.holders == s.holders[e := s.holders[e] + 1] && SameDisk(s, t) && Live(t, e)
  }

  lemma HeldIsLive(s: S, c: nat)
    requires Shape(s) && Refs(s) && c <= s.n && s.holders[c] > 0
    ensures s.ent[c].ref > 0
  {
    assert s.ent[c].ref == s.holders[c] + Kids(s.ent, s.n, c);
  }

  lemma SameDiskTrans(s: S, m: S, t: S)
    requires Shape(s) && Shape(m) && Shape(t) && SameDisk(s, m) && SameDisk(m, t)
    ensures SameDisk(s, t)
  {
    KeepTreeTrans(s.dirs, m.dirs, t.dirs, s.ent[s.n].firstClus);
  }

  /** Putting `e` again undoes the gain. */
  lemma PutBack(s: S, m: S, t: S, e: nat)
    requires With(s, m, e) && PutStep(m, t, e) && Core(t)
    ensures Back(s, t)
  {
    hide Kids, Parents, Lru, KeepTree;
    SameDiskTrans(s, m, t);
    assert t.holders == s.holders;
    hide SameDisk;
    forall c: nat | Live(s, c) && s.holders[c] > 0
      ensures Live(t, c) && SameNames(s, t, c)
    {
      assert Live(m, c) && SameNames(s, m, c) && SameNames(m, t, c);
      HeldIsLive(t, c);
    }
  }

  /** Gaining `next` and then putting `e` leaves `next` gained. */
  lemma PutOther(s: S, m: S, m': S, t: S, e: nat, next: nat, path: Path)
    requires With(s, m, e) && Gained(m, m', next, path) && m'.dirs == m.dirs && PutStep(m', t, e) && Core(t)
      && Tree(m.dirs, m.ent[m.n].firstClus)
    ensures With(s, t, next)
  {
    hide Kids, Parents, Lru, KeepTree, PathOf, Tree;
    KeepTreeSelf(m.dirs, m.ent[m.n].firstClus);
    SameDiskTrans(s, m, m');
    SameDiskTrans(s, m', t);
    assert m'.holders == s.holders[e := s.holders[e] + 1][next := s.holders[e := s.holders[e] + 1][next] + 1];
    assert t.holders == s.holders[next := s.holders[next] + 1];
    hide SameDisk;
    assert s.holders[next] >= 0;
    HeldIsLive(t, next);
    assert SameNames(m', t, next);
    forall c: nat | Live(s, c) && s.holders[c] > 0
      ensures Live(t, c) && SameNames(s, t, c)
    {
      assert Live(m, c) && SameNames(s, m, c);
      assert Live(m', c) && SameNames(m, m', c) && SameNames(m', t, c);
      HeldIsLive(t, c);
    }
  }

  /** What one element of a path leads to: on the disk, or among removed directories. */
  ghost predicate Stepped(m: S, t: S, e: nat, name: seq<byte>, r: Outcome) {
    && Shape(m) && Shape(t) && t.n == m.n && e <= m.n && SameDisk(m, t)
    && var at, kinds, root := PathOf(m, e), Kinds(m, e), m.ent[m.n].firstClus;
       match r
       case Got(next) =>
         && next <= t.n && PathOf(t, next) == Turn(at, name)
         && if kinds == [] then Kinds(t, next) == [] && Walk(m.dirs, root, Turn(at, name)) != Nothing
            else !Searchable(name) && Kinds(t, next) == if name == DOT then kinds else kinds[1..]
       case NoEntry(_) => Searchable(name) && (kinds == [] ==> Walk(m.dirs, root, Turn(at, name)) == Nothing)
       case Panic => true
  }

  /** An entry in use is cached, or was removed. */
  lemma KindsOf(s: S, e: nat)
    requires Core(s) && Live(s, e)
    ensures Kinds(s, e) == [] <==> s.ent[e].valid == 1
    ensures s.ent[e].valid != 1 ==>
      e < s.n && s.ent[e].parent <= s.n && Kinds(s, e) == [IsDir(s.ent[e].attr)] + Kinds(s, s.ent[e].parent)
  {
    hide Refs, Lru, Parents;
    if e < s.n {
      LiveParent(s, e);
    }
  }

  lemma GotStep(m: S, m': S, t: S, e: nat, name: seq<byte>, next: nat)
    requires Inv(m) && Live(m, e) && Inv(m') && Looked(m, m', e, name, Got(next)) && PutStep(m', t, e)
    ensures Stepped(m, t, e, name, Got(next))
  {
    assert next <= m'.n && t.n == m'.n == m.n;
    KindsOf(m, e);
    hide Scan, Inv, KeepTree, Live, LiveKept, PathOf, Kinds, NamesKept, IdleKept, Gone, Turn;
    PathSame(m', t, next);
    if m.ent[e].valid == 1 {
      GotLive(m, m', e, name, next);
    } else {
      GotDead(m, m', e, name, next);
    }
  }

  lemma GotLive(m: S, m': S, e: nat, name: seq<byte>, next: nat)
    requires Inv(m) && Live(m, e) && Inv(m') && Looked(m, m', e, name, Got(next)) && m.ent[e].valid == 1
    ensures Live(m', next) && Kinds(m', next) == []
      && Walk(m.dirs, m.ent[m.n].firstClus, Turn(PathOf(m, e), name)) != Nothing
  {
    hide Scan, Refs, Lru, Parents, Tree, Cached, DirIds;
    KindsOf(m', next);
    PathIsWalk(m', next);
  }

  lemma GotDead(m: S, m': S, e: nat, name: seq<byte>, next: nat)
    requires Inv(m) && Live(m, e) && Inv(m') && Looked(m, m', e, name, Got(next)) && m.ent[e].valid != 1
    ensures !Searchable(name) && next <= m'.n
      && Kinds(m', next) == if name == DOT then Kinds(m, e) else Kinds(m, e)[1..]
  {
    hide Scan, Refs, Lru, Parents, DiskInv, PathOf;
    KindsOf(m, e);
    if name == DOT {
      PathKept(m, m', e);
    } else {
      LiveParent(m, e);
      PathKept(m, m', m.ent[e].parent);
    }
  }

  lemma MissStep(m: S, m': S, t: S, e: nat, name: seq<byte>, off: nat)
    requires Inv(m) && Live(m, e) && Looked(m, m', e, name, NoEntry(off)) && PutStep(m', t, e)
    ensures Stepped(m, t, e, name, NoEntry(off))
  {
    hide Scan, Refs, Lru, Parents, KeepTree, Tree, Cached, DirIds;
    KindsOf(m, e);
    if m.ent[e].valid == 1 {
      PathIsWalk(m, e);
      var path := Turn(PathOf(m, e), name);
      assert path[..|path| - 1] == PathOf(m, e);
    }
  }

  /** The directory is still held after a lookup in it. */
  lemma GainedHolds(m: S, m': S, r: Outcome, e: nat, name: seq<byte>)
    requires Live(m, e) && m.holders[e] > 0 && Looked(m, m', e, name, r) && !r.Panic?
    ensures m'.n == m.n && Shape(m') && m'.holders[e] > 0 && (e == m'.n || Attached(m'.ent[e]))
  {
    hide Scan, PathOf;
    assert Live(m', e);
  }

  lemma WithKept(s: S, m: S, m': S, e: nat)
    requires With(s, m, e) && LiveKept(m, m') && m'.holders == m.holders && m'.dirs == m.dirs
    ensures With(s, m', e)
  {
    forall c: nat | Live(s, c) && s.holders[c] > 0
      ensures Live(m', c) && SameNames(s, m', c)
    {
      assert Live(m, c);
    }
  }

  // ---------- The whole lookup ----------

  /** What the lookup still has to find, given where it is. */
  ghost predicate Towards(t: S, e: nat, elems: Path, parent: bool, goal: Option<Path>) {
    && Shape(t) && e <= t.n
    && ResolveFrom(t.dirs, t.ent[t.n].firstClus, PathOf(t, e), Kinds(t, e), elems, parent) == goal
  }

  lemma StepTowards(m: S, t: S, e: nat, name: seq<byte>, r: Outcome, rest: Path, parent: bool, goal: Option<Path>)
    requires Inv(m) && Live(m, e) && Stepped(m, t, e, name, r) && Towards(m, e, [name] + rest, parent, goal)
    requires name != [] && (parent ==> rest != []) && IsDir(m.ent[e].attr)
    ensures r.Got? ==> Towards(t, r.entry, rest, parent, goal)
    ensures r.NoEntry? ==> goal == None
  {
    hide Scan, DiskInv, Refs, Lru, Parents, ResolveFrom, Walk, Turn, PathOf, Kinds;
    var at, kinds, root := PathOf(m, e), Kinds(m, e), m.ent[m.n].firstClus;
    KindsOf(m, e);
    if kinds == [] {
      PathIsWalk(m, e);
      StepLive(m.dirs, root, at, name, rest, parent);
    } else {
      StepDead(m.dirs, root, at, kinds, name, rest, parent);
    }
    if r.Got? {
      ResolveFromKept(m.dirs, t.dirs, root, Turn(at, name), Kinds(t, r.entry), rest, parent);
    }
  }

  lemma StepLive(dirs: map<nat, seq<Slot>>, root: nat, at: Path, name: seq<byte>, rest: Path, parent: bool)
    requires Walk(dirs, root, at).Folder? && (parent ==> rest != [])
    ensures ResolveFrom(dirs, root, at, [], [name] + rest, parent)
         == if Walk(dirs, root, Turn(at, name)) == Nothing then None
           else ResolveFrom(dirs, root, Turn(at, name), [], rest, parent)
  {
    hide Walk, Turn;
    assert ([name] + rest)[1..] == rest;
  }

  lemma StepDead(dirs: map<nat, seq<Slot>>, root: nat, at: Path, kinds: seq<bool>, name: seq<byte>, rest: Path,
                 parent: bool)
    requires kinds != [] && kinds[0] && name != [] && (parent ==> rest != [])
    ensures ResolveFrom(dirs, root, at, kinds, [name] + rest, parent)
         == if Searchable(name) then None
            else ResolveFrom(dirs, root, Turn(at, name), if name == DOT then kinds else kinds[1..], rest, parent)
  {
    hide Walk, Turn;
    assert ([name] + rest)[1..] == rest;
    DotTurn(at);
  }

  lemma DotTurn(at: Path)
    ensures Turn(at, DOT) == at
  {
  }

  /** The lookup ends at an entry that is no directory, or at the directory of the last element. */
  lemma EndTowards(t: S, e: nat, elems: Path, parent: bool, goal: Option<Path>)
    requires Inv(t) && Live(t, e) && Towards(t, e, elems, parent, goal)
    ensures e <= t.n
    ensures elems == [] ==> goal == if parent then None else Some(PathOf(t, e))
    ensures elems != [] && !IsDir(t.ent[e].attr) ==> goal == None
    ensures |elems| == 1 && parent && IsDir(t.ent[e].attr) ==> goal == Some(PathOf(t, e))
  {
    KindsOf(t, e);
    if t.ent[e].valid == 1 {
      PathIsWalk(t, e);
    }
    hide Scan, Inv, PathOf, Kinds, Walk, Turn;
  }

  /** One round of the loop in `lookup_path`: look up the element, then let go of the directory. */
  method LookupStep(c: Cache, ghost s: S, entry: nat, name: seq<byte>) returns (r: Outcome)
    requires c.Valid() && With(s, c.St(), entry) && name != [] && IsDir(c.ent[entry].attr)
    modifies c
    ensures c.Valid()
    ensures r.Got? ==> With(s, c.St(), r.entry)
    ensures r.NoEntry? ==> Back(s, c.St())
    ensures !r.Panic? ==> Stepped(old(c.St()), c.St(), entry, name, r)
    ensures r.Panic? ==> AllReferenced(c.St())
  {
    hide Scan, Refs, Lru, Parents, KeepTree, Tree, Cached, DirIds, PathOf, Stepped;
    ghost var m := c.St();
    r := c.DirLookup(entry, name);
    ghost var m' := c.St();
    if r.Panic? {
      return;
    }
    GainedHolds(m, m', r, entry, name);
    c.EPut(entry);
    ghost var t := c.St();
    if r.Got? {
      PutOther(s, m, m', t, entry, r.entry, Turn(PathOf(m, entry), name));
      GotStep(m, m', t, entry, name, r.entry);
    } else {
      MissStep(m, m', t, entry, name, r.off);
      WithKept(s, m, m', entry);
      PutBack(s, m', t, entry);
    }
  }

  /** Where a path name starts: at the root, or at the current directory. */
  function Start(path: seq<byte>, root: nat, cwd: nat): nat {
    if path != [] && path[0] == SLASH then root else cwd
  }

  /** One reference gained on success, none on failure. */
  ghost predicate Accounted(s: S, t: S, r: Outcome) {
    match r
    case Got(e) => With(s, t, e)
    case NoEntry(_) => Back(s, t)
    case Panic => true
  }

  /** The answer is what following the path leads to, on the disk and among removed directories. */
  ghost predicate Correct(s: S, t: S, path: seq<byte>, parent: bool, cwd: nat, r: Outcome) {
    && Shape(s) && Shape(t) && cwd <= s.n
    && var start := Start(path, s.n, cwd);
       path != [] ==>
         Reached(t, r,
                 ResolveFrom(s.dirs, s.ent[s.n].firstClus, PathOf(s, start), Kinds(s, start), Elems(path), parent))
  }

  /** The last element of a path name, if it has one. */
  function LastElem(path: seq<byte>): Option<seq<byte>> {
    var elems := Elems(path);
    if elems == [] then None else Some(elems[|elems| - 1])
  }

  lemma LastAfter(path: seq<byte>, name: seq<byte>, rest: seq<byte>)
    requires Elems(path) == [name] + Elems(rest)
    ensures LastElem(path) == if Elems(rest) == [] then Some(name) else LastElem(rest)
  {
  }

  lemma WithHolds(s: S, t: S, e: nat)
    requires With(s, t, e)
    ensures e <= t.n && t.n == s.n && Shape(s) && Shape(t) && Live(t, e) && t.holders[e] > 0
  {
    assert s.holders[e] >= 0;
  }

  /** The answer `r` in state `t` is the one looked for. */
  ghost predicate Reached(t: S, r: Outcome, goal: Option<Path>) {
    match r
    case Got(e) => Shape(t) && e <= t.n && goal == Some(PathOf(t, e))
    case NoEntry(_) => goal == None
    case Panic => true
  }

  ghost predicate AllReferenced(t: S) {
    t.n <= |t.ent| && forall x :: 0 <= x < t.n ==> t.ent[x].ref > 0
  }

  /** The loop of `lookup_path`, starting at `start`, to which the caller has gained a reference. */
  method WalkElems(c: Cache, ghost s: S, start: nat, path: seq<byte>, parent: bool, ghost goal: Option<Path>)
      returns (r: Outcome, name: seq<byte>)
    requires c.Valid() && With(s, c.St(), start) && Towards(c.St(), start, Elems(path), parent, goal)
    modifies c
    ensures c.Valid() && Accounted(s, c.St(), r) && Reached(c.St(), r, goal)
    ensures r.Panic? ==> AllReferenced(c.St())
    ensures r.Got? && parent ==> LastElem(path) == Some(name)
  {
    hide Inv, PathOf, Kinds, ResolveFrom, With, Back, Towards, Elems, LastElem, PutStep, Stepped;
    var entry, rest := start, path;
    name := [];
    while true
      invariant c.Valid() && With(s, c.St(), entry)
      invariant Towards(c.St(), entry, Elems(rest), parent, goal)
      invariant Elems(rest) != [] ==> LastElem(path) == LastElem(rest)
      decreases |rest|
    {
      ghost var m := c.St();
      WithHolds(s, m, entry);
      EndTowards(m, entry, Elems(rest), parent, goal);
      var after, nm := SkipElem(rest);
      if after == None {
        break;
      }
      name := nm;
      LastAfter(rest, nm, after.value);
      if !IsDir(c.ent[entry].attr) {
        GiveUp(c, s, entry);
        return NoEntry(0), name;
      }
      if parent && after.value == [] {
        return Got(entry), name;
      }
      r := LookupStep(c, s, entry, nm);
      if !r.Panic? {
        StepTowards(m, c.St(), entry, nm, r, Elems(after.value), parent, goal);
      }
      if !r.Got? {
        return;
      }
      entry, rest := r.entry, after.value;
    }
    if parent {
      GiveUp(c, s, entry);
      return NoEntry(0), name;
    }
    r := Got(entry);
  }

  method GiveUp(c: Cache, ghost s: S, entry: nat)
    requires c.Valid() && With(s, c.St(), entry)
    modifies c
    ensures c.Valid() && Back(s, c.St())
  {
    hide DiskInv, Refs, Lru, Parents, PutStep, Back, With;
    ghost var m := c.St();
    WithHolds(s, m, entry);
    c.EPut(entry);
    PutBack(s, m, c.St(), entry);
  }

  /** The answer is the entry with this path when there is one on the disk, and none when there is not. */
  ghost predicate AtPath(s: S, t: S, names: Path, r: Outcome) {
    && Shape(s)
    && match r
       case Got(e) => Shape(t) && e <= t.n && PathOf(t, e) == names
         && Walk(s.dirs, s.ent[s.n].firstClus, names) != Nothing
       case NoEntry(_) => Walk(s.dirs, s.ent[s.n].firstClus, names) == Nothing
       case Panic => true
  }

  /** For the parent it is the directory that holds the last name, when there is that directory. */
  ghost predicate AtParent(s: S, t: S, up: Path, r: Outcome) {
    && Shape(s)
    && match r
       case Got(e) => Shape(t) && e <= t.n && PathOf(t, e) == up && Walk(s.dirs, s.ent[s.n].firstClus, up).Folder?
       case NoEntry(_) => !Walk(s.dirs, s.ent[s.n].firstClus, up).Folder?
       case Panic => true
  }

  /**
   An absolute path name of ordinary names, and a relative one from a directory `cwd` that was not removed: what is
   found is what stands on the disk at these names, from the root or from `cwd`.
   */
  ghost predicate Finds(s: S, t: S, path: seq<byte>, parent: bool, cwd: nat, r: Outcome) {
    && Shape(s) && cwd <= s.n
    && forall names: Path {:trigger PlainNames(names)} :: PlainNames(names) && names != [] ==>
         && (path == Join(names) ==>
               if parent then AtParent(s, t, names[..|names| - 1], r) else AtPath(s, t, names, r))
         && ([47] + path == Join(names) && s.ent[cwd].valid == 1 ==>
               if parent then AtParent(s, t, PathOf(s, cwd) + names[..|names| - 1], r)
               else AtPath(s, t, PathOf(s, cwd) + names, r))
  }

  /** Where the lookup starts decides what it finds. */
  lemma FoundNames(s: S, t: S, start: nat, path: seq<byte>, names: Path, parent: bool, r: Outcome)
    requires Inv(s) && start <= s.n && s.ent[start].valid == 1 && PlainNames(names) && names != []
      && Elems(path) == names
    requires Reached(t, r, ResolveFrom(s.dirs, s.ent[s.n].firstClus, PathOf(s, start), Kinds(s, start), names, parent))
    ensures if parent then AtParent(s, t, PathOf(s, start) + names[..|names| - 1], r)
            else AtPath(s, t, PathOf(s, start) + names, r)
  {
    PathIsWalk(s, start);
    hide DiskInv, Refs, Lru, Parents, Walk, Resolve;
    if parent {
      ResolveParent(s.dirs, s.ent[s.n].firstClus, PathOf(s, start), names);
    } else {
      ResolveWalk(s.dirs, s.ent[s.n].firstClus, PathOf(s, start), names);
    }
  }

  lemma LookupFinds(s: S, t: S, path: seq<byte>, parent: bool, cwd: nat, r: Outcome)
    requires Inv(s) && cwd <= s.n && path != [] && Correct(s, t, path, parent, cwd, r)
    ensures Finds(s, t, path, parent, cwd, r)
  {
    hide DiskInv, Refs, Lru, Parents, ResolveFrom, PlainNames, Join, Elems, AtPath, AtParent, Reached, Kinds;
    forall names: Path | PlainNames(names) && names != []
      ensures path == Join(names) ==>
                if parent then AtParent(s, t, names[..|names| - 1], r) else AtPath(s, t, names, r)
      ensures [47] + path == Join(names) && s.ent[cwd].valid == 1 ==>
                if parent then AtParent(s, t, PathOf(s, cwd) + names[..|names| - 1], r)
                else AtPath(s, t, PathOf(s, cwd) + names, r)
    {
      PlainElems(names);
      if path == Join(names) {
        FoundNames(s, t, s.n, path, names, parent, r);
        assert PathOf(s, s.n) == [] && [] + names == names && [] + names[..|names| - 1] == names[..|names| - 1];
      }
      if [47] + path == Join(names) && s.ent[cwd].valid == 1 {
        assert Join(names)[1..] == path && path[0] == Join(names)[1];
        FoundNames(s, t, cwd, path, names, parent, r);
      }
    }
  }

  /** `lookup_path`; `name` is the element found last, which for `parent` is the one not looked up. */
  method LookupPath(c: Cache, path: seq<byte>, parent: bool, cwd: nat) returns (r: Outcome, name: seq<byte>)
    requires c.Valid() && Live(c.St(), cwd)
    modifies c
    ensures c.Valid()
    ensures Accounted(old(c.St()), c.St(), r)
    ensures Correct(old(c.St()), c.St(), path, parent, cwd, r)
    ensures path == [] ==> r.NoEntry?
    ensures path != [] && path[0] == 47 ==>
      Reached(c.St(), r, Resolve(old(c.dirs), old(c.ent)[c.n].firstClus, [], Elems(path), parent))
    ensures path != [] && path[0] != 47 && old(c.ent)[cwd].valid == 1 ==>
      Reached(c.St(), r,
              Resolve(old(c.dirs), old(c.ent)[c.n].firstClus, PathOf(old(c.St()), cwd), Elems(path), parent))
    ensures path != [] ==> Finds(old(c.St()), c.St(), path, parent, cwd, r)
    ensures r.Panic? ==> AllReferenced(c.St())
    ensures r.Got? && parent ==> LastElem(path) == Some(name)
  {
    hide DiskInv, Refs, Lru, Parents, PathOf, Kinds, ResolveFrom, Towards, Elems, LastElem, With, Back;
    ghost var s := c.St();
    if path == [] {
      BackSelf(s);
      return NoEntry(0), [];
    }
    var entry: nat := if path[0] == SLASH then c.n else cwd;
    c.EDup(entry);
    ghost var goal := ResolveFrom(s.dirs, s.ent[s.n].firstClus, PathOf(s, entry), Kinds(s, entry), Elems(path), parent);
    DupWith(s, c.St(), entry);
    DupTowards(s, c.St(), entry, Elems(path), parent);
    hide DupStep;
    r, name := WalkElems(c, s, entry, path, parent, goal);
    StartsAt(s, path, cwd, parent);
    LookupFinds(s, c.St(), path, parent, cwd, r);
  }

  /** From a directory that was not removed the lookup is that on the disk. */
  lemma StartsAt(s: S, path: seq<byte>, cwd: nat, parent: bool)
    requires Inv(s) && cwd <= s.n && path != []
    ensures path[0] == 47 ==>
      var e := Start(path, s.n, cwd);
      && e <= s.n
      && ResolveFrom(s.dirs, s.ent[s.n].firstClus, PathOf(s, e), Kinds(s, e), Elems(path), parent)
         == Resolve(s.dirs, s.ent[s.n].firstClus, [], Elems(path), parent)
    ensures path[0] != 47 && s.ent[cwd].valid == 1 ==>
      var e := Start(path, s.n, cwd);
      && e <= s.n
      && ResolveFrom(s.dirs, s.ent[s.n].firstClus, PathOf(s, e), Kinds(s, e), Elems(path), parent)
         == Resolve(s.dirs, s.ent[s.n].firstClus, PathOf(s, cwd), Elems(path), parent)
  {
    hide DiskInv, Refs, Lru, Parents, Resolve, Elems;
  }

  lemma DupTowards(s: S, t: S, e: nat, elems: Path, parent: bool)
    requires Inv(s) && DupStep(s, t, e) && (e == s.n || Live(s, e))
    ensures Towards(t, e, elems, parent,
                    ResolveFrom(s.dirs, s.ent[s.n].firstClus, PathOf(s, e), Kinds(s, e), elems, parent))
  {
    hide ResolveFrom;
    DupWith(s, t, e);
    if e < s.n {
      PathKept(s, t, e);
    }
  }

  lemma BackSelf(s: S)
    requires Inv(s)
    ensures Back(s, s)
  {
    hide Scan, KeepTree;
    KeepTreeSelf(s.dirs, s.ent[s.n].firstClus);
  }

  lemma DupWith(s: S, t: S, e: nat)
    requires Inv(s) && DupStep(s, t, e)
    ensures With(s, t, e) && t.dirs == s.dirs && PathOf(t, e) == PathOf(s, e) && t.ent[e].valid == s.ent[e].valid
    ensures t.ent[t.n].firstClus == s.ent[s.n].firstClus
  {
    hide Scan, KeepTree, Refs, Lru, Parents;
    KeepTreeSelf(s.dirs, s.ent[s.n].firstClus);
  }
}
