/** Placing files: apps/backend/src/common/file-placement.ts. */
module FilePlacement {
  import opened Sequences
  import opened Text

  // Other processes may change the disk between two system calls of ours, so
  // each call is judged on the disk it found, whatever that was.

  // ----------------------------------------------------------- the filesystem

  /** An absolute path, split into its directory and its base name. */
  datatype Path = Path(dir: string, base: string)

  /** A name holds a hard link to an inode, or a symbolic link. */
  datatype Node = File(inode: nat) | Symlink(target: Path)

  /** What an inode stores: the extent it occupies and the bytes in it. A clone
      shares its extent with the original; a copy occupies a new one. */
  datatype Data = Data(extent: nat, bytes: seq<int>)

  datatype Errno = ENOENT | EEXIST | EXDEV | ELOOP | Other

  /** `denied` lists the paths whose lstat fails with something other than
      ENOENT; numbers from `next` on are unused as inodes and as extents. */
  datatype Fs = Fs(names: map<Path, Node>, inodes: map<nat, Data>, denied: map<Path, Errno>, next: nat)

  datatype Outcome<+T> = Ok(value: T) | Err(error: Failure)

  datatype Failure = DestinationExists | System(errno: Errno) | NoFreeName

  ghost predicate Valid(fs: Fs) {
    && (forall p :: p in fs.names && fs.names[p].File? ==> fs.names[p].inode in fs.inodes)
    && (forall i :: i in fs.inodes ==> i < fs.next && fs.inodes[i].extent < fs.next)
    && (forall p :: p in fs.denied ==> fs.denied[p] != ENOENT)
  }

  function Lstat(fs: Fs, p: Path): Outcome<Node> {
    if p in fs.denied then Err(System(fs.denied[p]))
    else if p in fs.names then Ok(fs.names[p])
    else Err(System(ENOENT))
  }

  const MAX_LINKS: nat := 40

  /** The inode a path leads to, following at most `hops` symbolic links. */
  function Resolve(fs: Fs, p: Path, hops: nat): Outcome<nat>
    decreases hops
  {
    if p !in fs.names then Err(System(ENOENT))
    else match fs.names[p]
      case File(i) => Ok(i)
      case Symlink(t) => if hops == 0 then Err(System(ELOOP)) else Resolve(fs, t, hops - 1)
  }

  lemma {:induction false} ResolveFindsInode(fs: Fs, p: Path, hops: nat)
    requires Valid(fs)
    ensures Resolve(fs, p, hops).Ok? ==> Resolve(fs, p, hops).value in fs.inodes
    decreases hops
  {
    if p in fs.names && fs.names[p].Symlink? && hops > 0 {
      ResolveFindsInode(fs, fs.names[p].target, hops - 1);
    }
  }

  // ----------------------------------------------------------- system calls

  /** One system call: the disk it left and its error, if any. The kernel may
      refuse any call, without effect, for reasons outside the model. */
  datatype Called = Called(fs: Fs, error: Option<Errno>)

  function Rename(fs: Fs, src: Path, dest: Path, refusal: Option<Errno>): Called {
    if refusal.Some? then Called(fs, refusal)
    else if src !in fs.names then Called(fs, Some(ENOENT))
    else if SameFile(fs, src, dest) then Called(fs, None)
    else Called(fs.(names := (fs.names - {src})[dest := fs.names[src]]), None)
  }

  /** POSIX: renaming a file onto another link to it does nothing. */
  predicate SameFile(fs: Fs, src: Path, dest: Path) {
    src == dest || (src in fs.names && dest in fs.names && fs.names[src].File? && fs.names[dest] == fs.names[src])
  }

  function Store(fs: Fs, dest: Path, data: Data): Fs {
    fs.(names := fs.names[dest := File(fs.next)], inodes := fs.inodes[fs.next := data], next := fs.next + 1)
  }

  function CopyExclusive(fs: Fs, src: Path, dest: Path, refusal: Option<Errno>): Called {
    if refusal.Some? then Called(fs, refusal)
    else match Resolve(fs, src, MAX_LINKS)
      case Err(e) => Called(fs, Some(if e.System? then e.errno else Other))
      case Ok(i) =>
        if dest in fs.names then Called(fs, Some(EEXIST))
        else if i !in fs.inodes then Called(fs, Some(Other))
        else Called(Store(fs, dest, Data(fs.next, fs.inodes[i].bytes)), None)
  }

  function Link(fs: Fs, src: Path, dest: Path, refusal: Option<Errno>): Called {
    if refusal.Some? then Called(fs, refusal)
    else if src !in fs.names then Called(fs, Some(ENOENT))
    else if dest in fs.names then Called(fs, Some(EEXIST))
    else Called(fs.(names := fs.names[dest := fs.names[src]]), None)
  }

  function MakeSymlink(fs: Fs, src: Path, dest: Path, refusal: Option<Errno>): Called {
    if refusal.Some? then Called(fs, refusal)
    else if dest in fs.names then Called(fs, Some(EEXIST))
    else Called(fs.(names := fs.names[dest := Symlink(src)]), None)
  }

  /** `cp --reflink=always`: a new file that shares the source's extent; onto a name
      that is there, the file it leads to gets the source's content instead of its
      own. It fails where both names lead to one file, or where the name leads to
      none. */
  function Clone(fs: Fs, src: Path, dest: Path, refusal: Option<Errno>): Called {
    if refusal.Some? then Called(fs, refusal)
    else match Resolve(fs, src, MAX_LINKS)
      case Err(e) => Called(fs, Some(if e.System? then e.errno else Other))
      case Ok(i) =>
        if i !in fs.inodes then Called(fs, Some(Other))
        else if dest !in fs.names then Called(Store(fs, dest, fs.inodes[i]), None)
        else CloneOnto(fs, i, Resolve(fs, dest, MAX_LINKS))
  }

  function CloneOnto(fs: Fs, i: nat, found: Outcome<nat>): Called
    requires i in fs.inodes
  {
    if found.Err? || found.value == i then Called(fs, Some(Other))
    else Called(fs.(inodes := fs.inodes[found.value := fs.inodes[i]]), None)
  }

  // -------------------------------------------------------------- placeFile

  datatype Action = RenameFile | MoveFile | CopyFile | HardlinkFile | ReflinkFile | SymlinkFile

  datatype Placement = Placement(action: Action, fellBack: bool)

  /** What the outside world does: the disk other processes left before the first
      and the second call (None: nobody intervened), and the kernel's refusals. */
  datatype World = World(gap: Option<Fs>, laterGap: Option<Fs>, refusal: Option<Errno>, laterRefusal: Option<Errno>)

  function Interfere(fs: Fs, gap: Option<Fs>): Fs {
    if gap.Some? then gap.value else fs
  }

  /** One of our own calls: the disk it found and the disk it left. */
  datatype Step = Step(pre: Fs, post: Fs)

  datatype Report = Report(steps: seq<Step>, final: Fs, result: Outcome<Placement>)

  function SystemCall(fs: Fs, action: Action, src: Path, dest: Path, refusal: Option<Errno>): Called {
    match action
    case RenameFile => Rename(fs, src, dest, refusal)
    case MoveFile => Rename(fs, src, dest, refusal)
    case CopyFile => CopyExclusive(fs, src, dest, refusal)
    case HardlinkFile => Link(fs, src, dest, refusal)
    case ReflinkFile => Clone(fs, src, dest, refusal)
    case SymlinkFile => MakeSymlink(fs, src, dest, refusal)
  }

  predicate FallsBack(action: Action, e: Errno) {
    (action.HardlinkFile? && e == EXDEV) || action.ReflinkFile?
  }

  function Place(fs: Fs, action: Action, src: Path, dest: Path, w: World): Report {
    match Lstat(fs, dest)
    case Ok(_) => Report([], fs, Err(DestinationExists))
    case Err(e) =>
      if e != System(ENOENT) then Report([], fs, Err(e))
      else
        var pre := Interfere(fs, w.gap);
        var call := SystemCall(pre, action, src, dest, w.refusal);
        var first := Step(pre, call.fs);
        if call.error.None? then Report([first], call.fs, Ok(Placement(action, false)))
        else if !FallsBack(action, call.error.value) then Report([first], call.fs, Err(System(call.error.value)))
        else
          var pre' := Interfere(call.fs, w.laterGap);
          var copy := CopyExclusive(pre', src, dest, w.laterRefusal);
          Report([first, Step(pre', copy.fs)], copy.fs,
                 if copy.error.None? then Ok(Placement(CopyFile, true)) else Err(System(copy.error.value)))
  }

  ghost predicate ValidWorld(w: World) {
    (w.gap.Some? ==> Valid(w.gap.value)) && (w.laterGap.Some? ==> Valid(w.laterGap.value))
  }

  // ------------------------------------------------ nothing is ever overwritten

  /** Every name present keeps its node, every inode its data. */
  ghost predicate Extends(pre: Fs, post: Fs) {
    && (forall p :: p in pre.names ==> p in post.names && post.names[p] == pre.names[p])
    && (forall i :: i in pre.inodes ==> i in post.inodes && post.inodes[i] == pre.inodes[i])
  }

  /** As `Extends`, but the name `src` may go. */
  ghost predicate ExtendsExcept(pre: Fs, post: Fs, src: Path) {
    && (forall p :: p in pre.names && p != src ==> p in post.names && post.names[p] == pre.names[p])
    && (forall i :: i in pre.inodes ==> i in post.inodes && post.inodes[i] == pre.inodes[i])
  }

  lemma FailedCallHasNoEffect(fs: Fs, action: Action, src: Path, dest: Path, refusal: Option<Errno>)
    requires SystemCall(fs, action, src, dest, refusal).error.Some?
    ensures SystemCall(fs, action, src, dest, refusal).fs == fs
  {
  }

  /** An occupied destination is refused before anything is attempted. */
  lemma OccupiedDestinationIsRefused(fs: Fs, action: Action, src: Path, dest: Path, w: World)
    requires dest in fs.names && dest !in fs.denied
    ensures Place(fs, action, src, dest, w) == Report([], fs, Err(DestinationExists))
  {
  }

  predicate Exclusive(action: Action) {
    action.CopyFile? || action.HardlinkFile? || action.SymlinkFile?
  }

  lemma ExclusiveCallExtends(fs: Fs, action: Action, src: Path, dest: Path, refusal: Option<Errno>)
    requires Valid(fs) && Exclusive(action)
    ensures Extends(fs, SystemCall(fs, action, src, dest, refusal).fs)
  {
  }

  /** Copying, hard-linking and symlinking, their fallbacks included, and the copy
      a failed clone falls back to: whatever other processes do in the gaps, no
      call of ours changes a path or a content that exists when it is made. */
  lemma ExclusiveActionsNeverOverwrite(fs: Fs, action: Action, src: Path, dest: Path, w: World, n: nat)
    requires Valid(fs) && ValidWorld(w)
    requires n < |Place(fs, action, src, dest, w).steps| && (Exclusive(action) || n > 0)
    ensures var s := Place(fs, action, src, dest, w).steps[n]; Valid(s.pre) && Extends(s.pre, s.post)
  {
    var pre := Interfere(fs, w.gap);
    var pre' := Interfere(SystemCall(pre, action, src, dest, w.refusal).fs, w.laterGap);
    if n == 0 {
      ExclusiveCallExtends(pre, action, src, dest, w.refusal);
    } else {
      ExclusiveCallExtends(pre', CopyFile, src, dest, w.laterRefusal);
    }
  }

  /** The disk a rename, move or clone finds gives it nothing to destroy: the call is
      refused, the name is free, or what it leads to is the same already. */
  predicate Spares(fs: Fs, action: Action, src: Path, dest: Path, refusal: Option<Errno>) {
    || refusal.Some?
    || dest !in fs.names
    || (if action.ReflinkFile? then SameData(fs, Resolve(fs, src, MAX_LINKS), Resolve(fs, dest, MAX_LINKS))
        else src !in fs.names || fs.names[dest] == fs.names[src])
  }

  /** One of the two leads nowhere, or both lead to the same data. */
  predicate SameData(fs: Fs, a: Outcome<nat>, b: Outcome<nat>) {
    a.Err? || b.Err? || (a.value in fs.inodes && b.value in fs.inodes && fs.inodes[a.value] == fs.inodes[b.value])
  }

  lemma CloneKeepsOthersIff(fs: Fs, src: Path, dest: Path, refusal: Option<Errno>)
    requires Valid(fs)
    ensures ExtendsExcept(fs, Clone(fs, src, dest, refusal).fs, src) <==> Spares(fs, ReflinkFile, src, dest, refusal)
  {
    ResolveFindsInode(fs, src, MAX_LINKS);
    ResolveFindsInode(fs, dest, MAX_LINKS);
    var post := Clone(fs, src, dest, refusal).fs;
    if !Spares(fs, ReflinkFile, src, dest, refusal) {
      var j := Resolve(fs, dest, MAX_LINKS).value;
      assert post.inodes[j] != fs.inodes[j];
    }
  }

  /** Rename, move and clone keep everything else, whatever happened in the gap,
      exactly when the disk they find gives them nothing to destroy. */
  lemma ReplacingActionKeepsOthersIff(fs: Fs, action: Action, src: Path, dest: Path, w: World)
    requires Valid(fs) && ValidWorld(w) && !Exclusive(action) && Place(fs, action, src, dest, w).steps != []
    ensures var s := Place(fs, action, src, dest, w).steps[0];
            ExtendsExcept(s.pre, s.post, src) <==> Spares(s.pre, action, src, dest, w.refusal)
  {
    if action.ReflinkFile? { CloneKeepsOthersIff(Interfere(fs, w.gap), src, dest, w.refusal); }
  }

  /** So a file that appears at the destination in the gap loses its content to a
      clone that reports success. */
  lemma CloneDestroysInTheGap(fs: Fs, src: Path, dest: Path, w: World, i: nat, j: nat)
    requires Lstat(fs, dest) == Err(System(ENOENT)) && w.refusal.None? && w.gap.Some? && Valid(w.gap.value)
    requires Resolve(w.gap.value, src, MAX_LINKS) == Ok(i) && dest in w.gap.value.names && w.gap.value.names[dest] == File(j)
    requires i in w.gap.value.inodes && j in w.gap.value.inodes && w.gap.value.inodes[i].bytes != w.gap.value.inodes[j].bytes
    ensures var r := Place(fs, ReflinkFile, src, dest, w);
            && r.result == Ok(Placement(ReflinkFile, false))
            && j in r.final.inodes && r.final.inodes[j].bytes == w.gap.value.inodes[i].bytes
            && r.final.names == w.gap.value.names
  {
  }

  /** When nobody intervenes, no action changes another path, and only rename and
      move give up the source. */
  lemma UndisturbedPlacementKeepsOthers(fs: Fs, action: Action, src: Path, dest: Path, w: World)
    requires Valid(fs) && w.gap.None? && w.laterGap.None?
    ensures var final := Place(fs, action, src, dest, w).final;
            && ExtendsExcept(fs, final, src)
            && (!action.RenameFile? && !action.MoveFile? ==> Extends(fs, final))
            && (Place(fs, action, src, dest, w).result.Ok? && (action.RenameFile? || action.MoveFile?) ==>
                  src !in final.names && dest in final.names && final.names[dest] == fs.names[src])
  {
    if Lstat(fs, dest) == Err(System(ENOENT)) {
      assert dest !in fs.names;
      var call := SystemCall(fs, action, src, dest, w.refusal);
      if call.error.Some? {
        FailedCallHasNoEffect(fs, action, src, dest, w.refusal);
        ExclusiveCallExtends(fs, CopyFile, src, dest, w.laterRefusal);
      }
    }
  }

  // ------------------------------------------------- the report tells the truth

  function Extents(fs: Fs): set<nat> { set i | i in fs.inodes :: fs.inodes[i].extent }

  /** What it means, on the disk, that `src` was put at `dest` in a given way. */
  ghost predicate Happened(action: Action, pre: Fs, post: Fs, src: Path, dest: Path) {
    && dest in post.names
    && match action
       case RenameFile => Renamed(pre, post, src, dest)
       case MoveFile => Renamed(pre, post, src, dest)
       case HardlinkFile =>
         src in post.names && src in pre.names && post.names[dest] == pre.names[src] && post.inodes == pre.inodes
       case SymlinkFile => post.names[dest] == Symlink(src) && post.inodes == pre.inodes
       case CopyFile => Duplicated(pre, post, src, dest) && Extents(post) == Extents(pre) + {pre.next}
       case ReflinkFile => Cloned(pre, post, src, dest) && Extents(post) <= Extents(pre)
  }

  /** Another file than the source has its extent and bytes: a new one where the
      name was free. */
  ghost predicate Cloned(pre: Fs, post: Fs, src: Path, dest: Path) {
    && Resolve(pre, src, MAX_LINKS).Ok? && Resolve(pre, src, MAX_LINKS).value in pre.inodes
    && Resolve(post, dest, MAX_LINKS).Ok? && Resolve(post, dest, MAX_LINKS).value in post.inodes
    && Resolve(post, dest, MAX_LINKS).value != Resolve(pre, src, MAX_LINKS).value
    && post.inodes[Resolve(post, dest, MAX_LINKS).value] == pre.inodes[Resolve(pre, src, MAX_LINKS).value]
    && (dest !in pre.names ==> dest in post.names && post.names[dest].File? && post.names[dest].inode !in pre.inodes)
  }

  ghost predicate Renamed(pre: Fs, post: Fs, src: Path, dest: Path) {
    && src in pre.names && post.names[dest := pre.names[src]] == post.names && post.inodes == pre.inodes
    && (SameFile(pre, src, dest) || src !in post.names)
  }

  /** A new inode holds the bytes the source leads to. */
  ghost predicate Duplicated(pre: Fs, post: Fs, src: Path, dest: Path) {
    && dest in post.names && post.names[dest].File? && post.names[dest].inode !in pre.inodes
    && post.names[dest].inode in post.inodes
    && Resolve(pre, src, MAX_LINKS).Ok? && Resolve(pre, src, MAX_LINKS).value in pre.inodes
    && post.inodes[post.names[dest].inode].bytes == pre.inodes[Resolve(pre, src, MAX_LINKS).value].bytes
  }

  lemma {:induction false} ResolveReadsNames(a: Fs, b: Fs, p: Path, hops: nat)
    requires a.names == b.names
    ensures Resolve(a, p, hops) == Resolve(b, p, hops)
    decreases hops
  {
    if p in a.names && a.names[p].Symlink? && hops > 0 { ResolveReadsNames(a, b, a.names[p].target, hops - 1); }
  }

  lemma CopyDoesWhatItSays(fs: Fs, src: Path, dest: Path, refusal: Option<Errno>)
    requires Valid(fs) && CopyExclusive(fs, src, dest, refusal).error.None?
    ensures Happened(CopyFile, fs, CopyExclusive(fs, src, dest, refusal).fs, src, dest)
  {
    ResolveFindsInode(fs, src, MAX_LINKS);
    ExtentsOfStore(fs, dest, Data(fs.next, fs.inodes[Resolve(fs, src, MAX_LINKS).value].bytes));
  }

  lemma CloneDoesWhatItSays(fs: Fs, src: Path, dest: Path, refusal: Option<Errno>)
    requires Valid(fs) && Clone(fs, src, dest, refusal).error.None?
    ensures Happened(ReflinkFile, fs, Clone(fs, src, dest, refusal).fs, src, dest)
  {
    var i, post := Resolve(fs, src, MAX_LINKS).value, Clone(fs, src, dest, refusal).fs;
    ResolveFindsInode(fs, src, MAX_LINKS);
    assert fs.inodes[i].extent in Extents(fs);
    if dest !in fs.names {
      ExtentsOfStore(fs, dest, fs.inodes[i]);
      assert post.names[dest] == File(fs.next);
    } else {
      ResolveReadsNames(fs, post, dest, MAX_LINKS);
      forall x | x in Extents(post) ensures x in Extents(fs) {
        var k :| k in post.inodes && post.inodes[k].extent == x;
        assert k in fs.inodes || k == Resolve(fs, dest, MAX_LINKS).value;
      }
    }
  }

  lemma CallDoesWhatItSays(fs: Fs, action: Action, src: Path, dest: Path, refusal: Option<Errno>)
    requires Valid(fs) && SystemCall(fs, action, src, dest, refusal).error.None?
    ensures Happened(action, fs, SystemCall(fs, action, src, dest, refusal).fs, src, dest)
  {
    match action
    case CopyFile => CopyDoesWhatItSays(fs, src, dest, refusal);
    case ReflinkFile => CloneDoesWhatItSays(fs, src, dest, refusal);
    case _ =>
  }

  lemma ExtentsOfStore(fs: Fs, dest: Path, data: Data)
    requires Valid(fs)
    ensures Extents(Store(fs, dest, data)) == Extents(fs) + {data.extent}
  {
    var post := Store(fs, dest, data);
    assert post.inodes[fs.next].extent == data.extent;
    assert forall i :: i in fs.inodes ==> post.inodes[i] == fs.inodes[i];
  }

  /** Copy, clone, hard link, symbolic link and rename are told apart by the disk
      they leave, so a report can be wrong. */
  lemma HappenedIsUnambiguous(a: Action, b: Action, pre: Fs, post: Fs, src: Path, dest: Path)
    requires Valid(pre) && dest !in pre.names && dest != src
    requires Happened(a, pre, post, src, dest) && Happened(b, pre, post, src, dest)
    requires src in pre.names ==> pre.names[src] != Symlink(src)
    ensures a == b || {a, b} == {RenameFile, MoveFile}
  {
    assert pre.next !in Extents(pre);
  }

  /** A successful placement reports a fallback exactly when it did something other
      than what was asked, and what it reports is what its last call did. A failed
      one leaves every disk it found as it was. */
  lemma ReportIsTrue(fs: Fs, action: Action, src: Path, dest: Path, w: World)
    requires Valid(fs) && ValidWorld(w)
    ensures var r := Place(fs, action, src, dest, w);
            match r.result
            case Ok(p) =>
              && (p.fellBack <==> p.action != action)
              && r.steps != [] && r.final == r.steps[|r.steps| - 1].post
              && Happened(p.action, r.steps[|r.steps| - 1].pre, r.final, src, dest)
              && (forall n :: 0 <= n < |r.steps| - 1 ==> r.steps[n].post == r.steps[n].pre)
            case Err(_) => forall n :: 0 <= n < |r.steps| ==> r.steps[n].post == r.steps[n].pre
  {
    var pre := Interfere(fs, w.gap);
    var call := SystemCall(pre, action, src, dest, w.refusal);
    if call.error.None? {
      CallDoesWhatItSays(pre, action, src, dest, w.refusal);
    } else {
      FailedCallHasNoEffect(pre, action, src, dest, w.refusal);
      var pre' := Interfere(call.fs, w.laterGap);
      if CopyExclusive(pre', src, dest, w.laterRefusal).error.None? {
        CallDoesWhatItSays(pre', CopyFile, src, dest, w.laterRefusal);
      } else {
        FailedCallHasNoEffect(pre', CopyFile, src, dest, w.laterRefusal);
      }
    }
  }

  /** When a second call is made, and what comes of it: only a clone that failed, for
      whatever reason, or a hard link refused for crossing devices becomes a copy. */
  lemma FallsBackIff(fs: Fs, action: Action, src: Path, dest: Path, w: World)
    requires dest !in fs.names && dest !in fs.denied
    ensures var first := SystemCall(Interfere(fs, w.gap), action, src, dest, w.refusal);
            var second := CopyExclusive(Interfere(first.fs, w.laterGap), src, dest, w.laterRefusal);
            var r := Place(fs, action, src, dest, w);
            && 1 <= |r.steps| <= 2
            && (|r.steps| == 2 <==>
                  first.error.Some? && (action == ReflinkFile || (action == HardlinkFile && first.error == Some(EXDEV))))
            && r.result == if first.error.None? then Ok(Placement(action, false))
                           else if |r.steps| == 1 then Err(System(first.error.value))
                           else if second.error.None? then Ok(Placement(CopyFile, true))
                           else Err(System(second.error.value))
  {
  }

  /** Left alone, and with nothing refused, placing at a free name does what was asked
      exactly if the source is there: the name for renaming, moving and linking, the file
      it leads to for copying and cloning; a symbolic link may dangle. */
  lemma UndisturbedPlacementSucceedsIff(fs: Fs, action: Action, src: Path, dest: Path)
    requires Valid(fs) && dest !in fs.names && dest !in fs.denied
    ensures var w := World(None, None, None, None);
            Place(fs, action, src, dest, w).result == Ok(Placement(action, false)) <==>
              match action
              case RenameFile => src in fs.names
              case MoveFile => src in fs.names
              case HardlinkFile => src in fs.names
              case CopyFile => Resolve(fs, src, 40).Ok?
              case ReflinkFile => Resolve(fs, src, 40).Ok?
              case SymlinkFile => true
    ensures Place(fs, action, src, dest, World(None, None, None, None)).result.Ok? ==>
              Place(fs, action, src, dest, World(None, None, None, None)).result == Ok(Placement(action, false))
  {
    ResolveFindsInode(fs, src, MAX_LINKS);
  }

  // ------------------------------------------------------------ [dupN] names

  function LastDot(base: string): (i: int)
    ensures -1 <= i < |base| && (i >= 0 ==> base[i] == '.')
    ensures forall k :: i < k < |base| ==> base[k] != '.'
  {
    if base == "" then -1
    else if base[|base| - 1] == '.' then |base| - 1
    else LastDot(base[..|base| - 1])
  }

  /** The extension: the last dot and what follows, if anything follows. */
  function ExtensionStart(base: string): (i: nat)
    ensures i <= |base|
  {
    var dot := LastDot(base);
    if dot < 0 || dot == |base| - 1 then |base| else dot
  }

  function DupName(dest: Path, n: nat): Path {
    var i := ExtensionStart(dest.base);
    Path(dest.dir, dest.base[..i] + " [dup" + Decimal(n) + "]" + dest.base[i..])
  }

  const FIRST_DUP: nat := 2
  const DUP_LIMIT: nat := 1000

  lemma DupNamesDiffer(dest: Path, m: nat, n: nat)
    requires DupName(dest, m) == DupName(dest, n)
    ensures m == n
  {
    var i := ExtensionStart(dest.base);
    var head, tail := dest.base[..i] + " [dup", "]" + dest.base[i..];
    var a, b := DupName(dest, m).base, DupName(dest, n).base;
    assert a == head + Decimal(m) + tail && b == head + Decimal(n) + tail;
    assert a[|head|..|a| - |tail|] == Decimal(m) && b[|head|..|b| - |tail|] == Decimal(n);
    NumberOfDecimal(m);
    NumberOfDecimal(n);
  }

  /** The number goes before the extension: the last dot and what follows it, if
      anything does; otherwise to the end. */
  lemma DupNameKeepsExtension(dir: string, stem: string, ext: string, n: nat)
    requires '.' !in ext
    ensures ext != "" ==>
              DupName(Path(dir, stem + "." + ext), n) == Path(dir, stem + " [dup" + Decimal(n) + "]" + ("." + ext))
    ensures ext == "" ==> DupName(Path(dir, stem + "."), n) == Path(dir, stem + "." + " [dup" + Decimal(n) + "]" + "")
    ensures '.' !in stem ==> DupName(Path(dir, stem), n) == Path(dir, stem + " [dup" + Decimal(n) + "]" + "")
  {
    var base := stem + "." + ext;
    assert base[|stem|] == '.';
    assert LastDot(base) == |stem| by {
      assert forall k :: |stem| < k < |base| ==> base[k] == ext[k - |stem| - 1];
    }
    assert base[..|stem|] == stem && base[|stem|..] == "." + ext;
    if ext == "" {
      assert base == stem + ".";
      assert base[..|base|] == base && base[|base|..] == "";
    }
    if '.' !in stem {
      assert LastDot(stem) == -1;
      assert stem[..|stem|] == stem && stem[|stem|..] == "";
    }
  }

  predicate Taken(fs: Fs, dest: Path, n: nat) { Lstat(fs, DupName(dest, n)).Ok? }

  predicate Free(fs: Fs, dest: Path, n: nat) { Lstat(fs, DupName(dest, n)) == Err(System(ENOENT)) }

  /** `n` is the lowest number whose name is free, every lower one being taken. */
  ghost predicate LowestFree(fs: Fs, dest: Path, n: nat) {
    FIRST_DUP <= n < DUP_LIMIT && Free(fs, dest, n) && forall m :: FIRST_DUP <= m < n ==> Taken(fs, dest, m)
  }

  /** Spelled out: of the numbers 2 to 999 the first whose name is not there, no name up
      to it being barred from examination. */
  lemma LowestFreeIs(fs: Fs, dest: Path, n: nat)
    requires Valid(fs)
    ensures LowestFree(fs, dest, n) <==>
              && 2 <= n <= 999 && DupName(dest, n) !in fs.names && DupName(dest, n) !in fs.denied
              && forall m :: 2 <= m < n ==> DupName(dest, m) in fs.names && DupName(dest, m) !in fs.denied
    ensures AllTaken(fs, dest) <==>
              forall m :: 2 <= m <= 999 ==> DupName(dest, m) in fs.names && DupName(dest, m) !in fs.denied
  {
    assert forall m :: Taken(fs, dest, m) <==> DupName(dest, m) in fs.names && DupName(dest, m) !in fs.denied;
    assert forall m :: Free(fs, dest, m) <==> DupName(dest, m) !in fs.names && DupName(dest, m) !in fs.denied;
  }

  ghost predicate AllTaken(fs: Fs, dest: Path) {
    forall m :: FIRST_DUP <= m < DUP_LIMIT ==> Taken(fs, dest, m)
  }

  /** The disk, changed in place by the calls of one process and by the others. */
  class Disk {
    var fs: Fs

    constructor (initial: Fs)
      ensures fs == initial
    {
      fs := initial;
    }

    /** Passes exactly where nothing has the name and the name can be examined. Where
        it refuses, no placement would touch the disk, whatever the action and
        whatever other processes do; where it passes, every placement does try. */
    method AssertDestinationFree(dest: Path) returns (error: Option<Failure>)
      requires Valid(fs)
      ensures error == None <==> dest !in fs.names && dest !in fs.denied
      ensures error == Some(DestinationExists) <==> dest in fs.names && dest !in fs.denied
      ensures dest in fs.denied ==> error == Some(System(fs.denied[dest]))
      ensures error.Some? ==> forall a, src, w :: Place(fs, a, src, dest, w) == Report([], fs, Err(error.value))
      ensures error.None? ==> forall a, src, w :: Place(fs, a, src, dest, w).steps != []
    {
      var found := Lstat(fs, dest);
      if found.Err? {
        if found.error == System(ENOENT) { return None; }
        return Some(found.error);
      }
      return Some(DestinationExists);
    }

    method Call(action: Action, src: Path, dest: Path, refusal: Option<Errno>) returns (error: Option<Errno>)
      modifies this
      ensures Called(fs, error) == SystemCall(old(fs), action, src, dest, refusal)
    {
      var called := SystemCall(fs, action, src, dest, refusal);
      fs := called.fs;
      error := called.error;
    }

    method OthersRun(gap: Option<Fs>)
      modifies this
      ensures fs == Interfere(old(fs), gap)
    {
      if gap.Some? { fs := gap.value; }
    }

    /** `placeFile`, in a world that decides the gaps and the refusals. */
    method PlaceFile(action: Action, src: Path, dest: Path, w: World) returns (r: Outcome<Placement>)
      requires Valid(fs)
      modifies this
      ensures r == Place(old(fs), action, src, dest, w).result
      ensures fs == Place(old(fs), action, src, dest, w).final
    {
      var occupied := AssertDestinationFree(dest);
      if occupied.Some? { return Err(occupied.value); }
      OthersRun(w.gap);
      var error := Call(action, src, dest, w.refusal);
      if error.None? { return Ok(Placement(action, false)); }
      match action {
        case HardlinkFile =>
          if error.value != EXDEV { return Err(System(error.value)); }
        case ReflinkFile =>
        case _ => return Err(System(error.value));
      }
      OthersRun(w.laterGap);
      var copyError := Call(CopyFile, src, dest, w.laterRefusal);
      if copyError.Some? { return Err(System(copyError.value)); }
      return Ok(Placement(CopyFile, true));
    }

    /** The lowest free `[dupN]` name; an error only when all 998 are taken, or
        when a name met before the first free one cannot be examined. */
    method FreeDupDestination(dest: Path) returns (r: Outcome<Path>)
      requires Valid(fs)
      ensures r.Ok? <==> exists n :: LowestFree(fs, dest, n)
      ensures forall n :: LowestFree(fs, dest, n) ==> r == Ok(DupName(dest, n))
      ensures r == Err(NoFreeName) <==> AllTaken(fs, dest)
    {
      var n := FIRST_DUP;
      while n < DUP_LIMIT
        invariant FIRST_DUP <= n <= DUP_LIMIT
        invariant forall m :: FIRST_DUP <= m < n ==> Taken(fs, dest, m)
      {
        var found := Lstat(fs, DupName(dest, n));
        if found.Err? {
          LowestIsFirstUntaken(fs, dest, n);
          if found.error == System(ENOENT) { return Ok(DupName(dest, n)); }
          return Err(found.error);
        }
        n := n + 1;
      }
      assert forall m :: LowestFree(fs, dest, m) ==> !Taken(fs, dest, m);
      return Err(NoFreeName);
    }

    /** Copy `src` beside an occupied `dest` once more: a fresh name, then `placeFile`
        with its own check. */
    method CopyBeside(
        src: Path, dest: Path, refusal: Option<Errno>, ghost start: Fs, ghost made: seq<Path>)
      returns (r: Outcome<Path>)
      requires Valid(start) && Progress(start, fs, src, dest, made)
      modifies this
      ensures r.Ok? ==> refusal.None? && Progress(start, fs, src, dest, made + [r.value])
      ensures r.Err? ==> fs == old(fs) && (refusal.Some? || Resolve(start, src, MAX_LINKS).Err? || UsableNumbers(fs, dest) == {})
    {
      UsableExactly(fs, dest);
      CopyOnceMore(start, fs, src, dest, made, refusal);
      var name := FreeDupDestination(dest);
      if name.Err? { return Err(name.error); }
      ghost var n: nat :| LowestFree(fs, dest, n);
      assert CopiedOrNot(start, fs, src, dest, made, n, refusal);
      QuietCopy(fs, src, name.value, refusal);
      var placed := PlaceFile(CopyFile, src, name.value, Quiet(refusal));
      if placed.Err? { return Err(placed.error); }
      return Ok(name.value);
    }

    /** The same again and again, until the kernel refuses a copy or no name can be
        had. */
    method CopyRepeatedly(
        src: Path, dest: Path, refusals: seq<Option<Errno>>) returns (made: seq<Path>, stopped: Option<Failure>)
      requires Valid(fs)
      modifies this
      ensures Copied(old(fs), fs, src, made) && |made| <= |refusals| && |made| <= |UsableNumbers(old(fs), dest)|
      ensures forall i :: 0 <= i < |made| ==> refusals[i].None?
      ensures stopped.None? ==> |made| == |refusals|
      ensures stopped.Some? ==>
                && |made| < |refusals|
                && (refusals[|made|].Some? || Resolve(old(fs), src, MAX_LINKS).Err? || |made| == |UsableNumbers(old(fs), dest)|)
    {
      made, stopped := [], None;
      while |made| < |refusals|
        invariant Progress(old(fs), fs, src, dest, made) && |made| <= |refusals|
        invariant forall i :: 0 <= i < |made| ==> refusals[i].None?
      {
        var r := CopyBeside(src, dest, refusals[|made|], old(fs), made);
        if r.Err? { return made, Some(r.error); }
        made := made + [r.value];
      }
    }
  }

  /** A world in which nobody else touches the disk. */
  function Quiet(refusal: Option<Errno>): World { World(None, None, refusal, None) }

  /** Placing a copy at a free name passes the check and is one exclusive copy. */
  lemma QuietCopy(fs: Fs, src: Path, dest: Path, refusal: Option<Errno>)
    requires Lstat(fs, dest) == Err(System(ENOENT))
    ensures var r, copy := Place(fs, CopyFile, src, dest, Quiet(refusal)), CopyExclusive(fs, src, dest, refusal);
            && r.final == copy.fs
            && r.result == if copy.error.None? then Ok(Placement(CopyFile, false)) else Err(System(copy.error.value))
  {
  }

  /** The copies made so far, and the numbers left. */
  ghost predicate Progress(start: Fs, fs: Fs, src: Path, dest: Path, made: seq<Path>) {
    && Copied(start, fs, src, made) && fs.denied == start.denied && (made == [] ==> fs == start)
    && |made| + |UsableNumbers(fs, dest)| == |UsableNumbers(start, dest)|
  }

  lemma LowestIsFirstUntaken(fs: Fs, dest: Path, n: nat)
    requires FIRST_DUP <= n < DUP_LIMIT && !Taken(fs, dest, n)
    requires forall m :: FIRST_DUP <= m < n ==> Taken(fs, dest, m)
    ensures LowestFree(fs, dest, n) <==> Free(fs, dest, n)
    ensures forall m :: LowestFree(fs, dest, m) ==> m == n
  {
    forall m | LowestFree(fs, dest, m) ensures m == n {
      assert !Taken(fs, dest, m);
    }
  }

  /** The k copies made: distinct new names for distinct new files, each with the
      bytes of the source; everything that was there is kept. */
  ghost predicate Copied(start: Fs, fs: Fs, src: Path, made: seq<Path>) {
    && Valid(fs) && Extends(start, fs)
    && (forall i :: 0 <= i < |made| ==> made[i] !in start.names && HoldsCopy(start, fs, src, made[i]))
    && (forall i, j :: 0 <= i < j < |made| ==> made[i] != made[j] && fs.names[made[i]] != fs.names[made[j]])
    && fs.names.Keys == start.names.Keys + set p | p in made
  }

  /** The numbers whose names are free, as far as the names can be examined. */
  ghost function UsableNumbers(fs: Fs, dest: Path): set<nat> {
    set n: nat | FIRST_DUP <= n < DUP_LIMIT && DupName(dest, n) !in fs.names && Examinable(fs, dest, n)
  }

  ghost predicate Examinable(fs: Fs, dest: Path, n: nat) {
    forall m :: FIRST_DUP <= m <= n ==> DupName(dest, m) !in fs.denied
  }

  /** The name leads to a file of its own with the bytes `src` had at first. */
  ghost predicate HoldsCopy(start: Fs, fs: Fs, src: Path, p: Path) {
    && Resolve(start, src, MAX_LINKS).Ok? && Resolve(start, src, MAX_LINKS).value in start.inodes
    && p in fs.names && fs.names[p].File? && fs.names[p].inode in fs.inodes && fs.names[p].inode !in start.inodes
    && fs.inodes[fs.names[p].inode].bytes == start.inodes[Resolve(start, src, MAX_LINKS).value].bytes
  }

  lemma SomeFree(fs: Fs, dest: Path, x: nat) returns (n: nat)
    requires x in UsableNumbers(fs, dest)
    ensures LowestFree(fs, dest, n)
  {
    n := FIRST_DUP;
    while n < x && Taken(fs, dest, n)
      invariant FIRST_DUP <= n <= x
      invariant forall m :: FIRST_DUP <= m < n ==> Taken(fs, dest, m)
    {
      n := n + 1;
    }
  }

  /** There is a lowest free name exactly while a number is usable. */
  lemma UsableExactly(fs: Fs, dest: Path)
    requires Valid(fs)
    ensures UsableNumbers(fs, dest) == {} <==> !exists n :: LowestFree(fs, dest, n)
    ensures forall n :: LowestFree(fs, dest, n) ==> n in UsableNumbers(fs, dest)
  {
    forall n | LowestFree(fs, dest, n) ensures n in UsableNumbers(fs, dest) {
      forall m | FIRST_DUP <= m <= n ensures DupName(dest, m) !in fs.denied {
        if m < n { assert Taken(fs, dest, m); }
      }
    }
    if UsableNumbers(fs, dest) != {} {
      var x :| x in UsableNumbers(fs, dest);
      var n := SomeFree(fs, dest, x);
    }
  }

  lemma {:induction false} ResolveExtends(pre: Fs, post: Fs, p: Path, hops: nat)
    requires Extends(pre, post) && Resolve(pre, p, hops).Ok?
    ensures Resolve(post, p, hops) == Resolve(pre, p, hops)
    decreases hops
  {
    if pre.names[p].Symlink? { ResolveExtends(pre, post, pre.names[p].target, hops - 1); }
  }

  lemma ExactlyOneFewer(fs: Fs, post: Fs, dest: Path, n: nat)
    requires n in UsableNumbers(fs, dest) && post.names.Keys == fs.names.Keys + {DupName(dest, n)} && post.denied == fs.denied
    ensures |UsableNumbers(post, dest)| == |UsableNumbers(fs, dest)| - 1
  {
    forall m | m in UsableNumbers(fs, dest) && m != n ensures DupName(dest, m) != DupName(dest, n) {
      if DupName(dest, m) == DupName(dest, n) { DupNamesDiffer(dest, m, n); }
    }
    assert forall m :: Examinable(post, dest, m) <==> Examinable(fs, dest, m);
    assert UsableNumbers(post, dest) == UsableNumbers(fs, dest) - {n};
  }

  /** One more copy: a new name, a new file, one usable number fewer. */
  lemma CopyMakesOne(start: Fs, fs: Fs, src: Path, dest: Path, made: seq<Path>, n: nat)
    requires Valid(start) && Resolve(start, src, MAX_LINKS).Ok?
    requires Copied(start, fs, src, made) && LowestFree(fs, dest, n)
    ensures var called := CopyExclusive(fs, src, DupName(dest, n), None);
            && called.error.None? && called.fs.denied == fs.denied
            && Copied(start, called.fs, src, made + [DupName(dest, n)])
            && |UsableNumbers(called.fs, dest)| == |UsableNumbers(fs, dest)| - 1
  {
    var name := DupName(dest, n);
    ResolveExtends(start, fs, src, MAX_LINKS);
    ResolveFindsInode(start, src, MAX_LINKS);
    var post := CopyExclusive(fs, src, name, None).fs;
    UsableExactly(fs, dest);
    ExactlyOneFewer(fs, post, dest, n);
    CopiedGrows(start, fs, post, src, made, name);
  }

  /** A copy to the lowest free name succeeds exactly if it is not refused and the
      source leads to a file; otherwise it leaves the disk as it was. */
  lemma CopyOnceMore(start: Fs, fs: Fs, src: Path, dest: Path, made: seq<Path>, refusal: Option<Errno>)
    requires Valid(start) && Copied(start, fs, src, made) && (made == [] ==> fs == start)
    ensures forall n :: LowestFree(fs, dest, n) ==> CopiedOrNot(start, fs, src, dest, made, n, refusal)
  {
    forall n | LowestFree(fs, dest, n) ensures CopiedOrNot(start, fs, src, dest, made, n, refusal) {
      if refusal.None? && Resolve(start, src, MAX_LINKS).Ok? { CopyMakesOne(start, fs, src, dest, made, n); }
      if made != [] { assert HoldsCopy(start, fs, src, made[0]); }
    }
  }

  ghost predicate CopiedOrNot(
      start: Fs, fs: Fs, src: Path, dest: Path, made: seq<Path>, n: nat, refusal: Option<Errno>) {
    var called := CopyExclusive(fs, src, DupName(dest, n), refusal);
    if refusal.None? && Resolve(start, src, MAX_LINKS).Ok? then
      && called.error.None? && called.fs.denied == fs.denied
      && Copied(start, called.fs, src, made + [DupName(dest, n)])
      && |UsableNumbers(called.fs, dest)| == |UsableNumbers(fs, dest)| - 1
    else
      called.error.Some? && called.fs == fs
  }

  lemma CopySurvives(start: Fs, fs: Fs, post: Fs, src: Path, p: Path)
    requires HoldsCopy(start, fs, src, p) && Valid(fs) && Extends(fs, post)
    ensures HoldsCopy(start, post, src, p) && p in fs.names && post.names[p] == fs.names[p] != File(fs.next)
  {
  }

  lemma CopiedGrows(start: Fs, fs: Fs, post: Fs, src: Path, made: seq<Path>, name: Path)
    requires Copied(start, fs, src, made) && Valid(post) && Extends(fs, post)
    requires name !in fs.names && HoldsCopy(start, post, src, name) && post.names[name] == File(fs.next)
    requires post.names.Keys == fs.names.Keys + {name}
    ensures Copied(start, post, src, made + [name])
  {
    var longer := made + [name];
    forall i | 0 <= i < |longer| ensures longer[i] !in start.names && HoldsCopy(start, post, src, longer[i]) {
      if i < |made| { CopySurvives(start, fs, post, src, made[i]); }
    }
    forall i, j | 0 <= i < j < |longer| ensures longer[i] != longer[j] && post.names[longer[i]] != post.names[longer[j]] {
      CopySurvives(start, fs, post, src, made[i]);
      if j < |made| { CopySurvives(start, fs, post, src, made[j]); }
    }
    assert (set p | p in longer) == (set p | p in made) + {name};
  }
}
