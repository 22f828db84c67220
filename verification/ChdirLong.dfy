/** chdir_long of lib/chdir-long.c: changing to a directory whose name is too long for one system
    call, piece by piece, against the resolution of the whole name. */
module ChdirLong {
  import opened Common

  // The limit on the names that a system call takes, terminator included.
  const PATH_MAX: nat := 4096

  type Dir = nat

  /** A tree of directories: entering one by name, and the prefix `//host`, whose meaning is left to
      the system. */
  datatype FileSystem = FileSystem(root: Dir, enter: (Dir, string) -> Option<Dir>, host: string -> Option<Dir>)

  // ---------------------------------------------------------------- What a name means

  /** The index of the first slash of s from i on, or the end. */
  function Slash(s: string, i: nat): (r: nat)
    requires i <= |s|
    ensures i <= r <= |s| && (r < |s| ==> s[r] == '/') && '/' !in s[i..r]
    decreases |s| - i
  {
    if i == |s| || s[i] == '/' then i else Slash(s, i + 1)
  }

  /** The index of the first character from i on that is no slash, or the end. */
  function NonSlash(s: string, i: nat): (r: nat)
    requires i <= |s|
    ensures i <= r <= |s| && (r < |s| ==> s[r] != '/')
    ensures forall k :: i <= k < r ==> s[k] == '/'
    decreases |s| - i
  {
    if i == |s| || s[i] != '/' then i else NonSlash(s, i + 1)
  }

  /** Entering the components of a relative name one after the other; slashes only separate. */
  function Follow(fs: FileSystem, from: Dir, name: string): Option<Dir>
    decreases |name|
  {
    if name == "" then Some(from)
    else if name[0] == '/' then Follow(fs, from, name[1..])
    else
      var n := Slash(name, 0);
      match fs.enter(from, name[..n])
      case None => None
      case Some(d) => Follow(fs, d, name[n..])
  }

  function Bind(fs: FileSystem, at: Option<Dir>, name: string): Option<Dir> {
    match at case None => None case Some(d) => Follow(fs, d, name)
  }

  /** The directory that a name of any length stands for; the empty name stands for none. */
  function Resolve(fs: FileSystem, cwd: Dir, name: string): Option<Dir> {
    var n := NonSlash(name, 0);
    if name == "" then None
    else if n == 0 then Follow(fs, cwd, name)
    else if n == 2 && |name| > 2 then Bind(fs, fs.host(name[..Slash(name, 2)]), name[Slash(name, 2)..])
    else Follow(fs, fs.root, name)
  }

  /** One component behind any slashes, in front of a slash or the end: it is entered by its name. */
  lemma {:induction false} EnterOne(fs: FileSystem, from: Dir, slashes: string, name: string, rest: string)
    requires (forall k :: 0 <= k < |slashes| ==> slashes[k] == '/') && name != "" && '/' !in name
    requires rest == "" || rest[0] == '/'
    ensures Follow(fs, from, slashes) == Some(from)
    ensures Follow(fs, from, slashes + (name + rest))
            == match fs.enter(from, name) case None => None case Some(d) => Follow(fs, d, rest)
    decreases |slashes|
  {
    if slashes == "" {
      assert "" + (name + rest) == name + rest;
      SlashPrefix(name, rest, 0);
      NoSlash(name, 0);
      assert (name + rest)[..|name|] == name && (name + rest)[|name|..] == rest;
    } else {
      assert (slashes + (name + rest))[1..] == slashes[1..] + (name + rest);
      EnterOne(fs, from, slashes[1..], name, rest);
    }
  }

  lemma {:induction false} NoSlash(name: string, i: nat)
    requires i <= |name| && '/' !in name
    ensures Slash(name, i) == |name|
    decreases |name| - i
  {
    if i < |name| {
      assert name[i] in name;
      NoSlash(name, i + 1);
    }
  }

  /** Where a name starts: at the working directory, at the root, for one slash or three and more or
      two with nothing behind them, or at a host. */
  lemma ResolveStarts(fs: FileSystem, cwd: Dir, name: string)
    ensures Resolve(fs, cwd, "") == None && Resolve(fs, cwd, "//") == Some(fs.root)
    ensures name != "" && name[0] != '/' ==> Resolve(fs, cwd, name) == Follow(fs, cwd, name)
    ensures Resolve(fs, cwd, "///" + name) == Follow(fs, fs.root, name)
    ensures name == "" || name[0] != '/' ==> Resolve(fs, cwd, "/" + name) == Follow(fs, fs.root, name)
  {
    assert ("/" + name)[1..] == name;
    assert ("///" + name)[1..] == "//" + name && ("//" + name)[1..] == "/" + name;
    assert NonSlash("///" + name, 3) >= 3;
    assert Follow(fs, fs.root, "//" + name) == Follow(fs, fs.root, "/" + name) == Follow(fs, fs.root, name);
  }

  lemma ResolveHost(fs: FileSystem, cwd: Dir, host: string, rest: string)
    requires host != "" && '/' !in host && (rest == "" || rest[0] == '/')
    ensures Resolve(fs, cwd, "//" + host + rest) == Bind(fs, fs.host("//" + host), rest)
  {
    var front, name := "//" + host, "//" + host + rest;
    assert front[2] == host[0] && host[0] in host;
    assert NonSlash(name, 2) == 2;
    SlashPrefix(front, rest, 2);
    AfterPrefix("//", host);
    assert name[..|front|] == front && name[|front|..] == rest;
  }

  lemma {:induction false} AfterPrefix(front: string, name: string)
    requires '/' !in name
    ensures Slash(front + name, |front|) == |front + name|
    decreases |name|
  {
    if name == "" {
      assert front + name == front;
    } else {
      assert (front + [name[0]]) + name[1..] == front + name;
      AfterPrefix(front + [name[0]], name[1..]);
      assert name[0] in name;
    }
  }

  lemma {:induction false} SlashPrefix(a: string, b: string, i: nat)
    requires i <= |a| && (b == "" || b[0] == '/')
    ensures Slash(a + b, i) == Slash(a, i)
    decreases |a| - i
  {
    if i < |a| && a[i] != '/' {
      SlashPrefix(a, b, i + 1);
    }
  }

  /** A name may be cut at any slash. */
  lemma {:induction false} FollowCut(fs: FileSystem, from: Dir, a: string, b: string)
    requires b == "" || b[0] == '/'
    ensures Follow(fs, from, a + b) == Bind(fs, Follow(fs, from, a), b)
    decreases |a|
  {
    if a == "" {
      assert a + b == b;
    } else if a[0] == '/' {
      assert (a + b)[1..] == a[1..] + b;
      FollowCut(fs, from, a[1..], b);
    } else {
      var n := Slash(a, 0);
      SlashPrefix(a, b, 0);
      assert (a + b)[..n] == a[..n] && (a + b)[n..] == a[n..] + b;
      match fs.enter(from, a[..n])
      case None =>
      case Some(d) => FollowCut(fs, d, a[n..], b);
    }
  }

  lemma {:induction false} FollowSkip(fs: FileSystem, from: Dir, name: string, i: nat)
    requires i <= |name|
    ensures Follow(fs, from, name[i..]) == Follow(fs, from, name[NonSlash(name, i)..])
    decreases |name| - i
  {
    if i < |name| && name[i] == '/' {
      assert name[i..][1..] == name[i + 1..];
      FollowSkip(fs, from, name, i + 1);
    }
  }

  /** The next piece of a name, from d up to a slash, and the rest behind the slashes there. */
  lemma PieceStep(fs: FileSystem, from: Dir, name: string, d: nat, slash: nat)
    requires d < slash < |name| && name[slash] == '/' && name[d] != '/'
    ensures Follow(fs, from, name[d..]) == Bind(fs, Resolve(fs, from, name[d..slash]), name[NonSlash(name, slash + 1)..])
  {
    hide Follow, Slash, Resolve;
    assert name[d..] == name[d..slash] + name[slash..];
    assert name[d..slash][0] != '/';
    RelativePath(fs, from, name[d..slash]);
    FollowCut(fs, from, name[d..slash], name[slash..]);
    match Follow(fs, from, name[d..slash])
    case None =>
    case Some(at) => FollowSkip(fs, at, name, slash);
  }

  // ---------------------------------------------------------------- The program

  datatype Errno = NoError | ENAMETOOLONG | ENOENT | Other(code: int)

  /** struct cd_buf: AT_FDCWD, or a descriptor open on a directory. */
  datatype CdBuf = AtCwd | Fd(dir: Dir)

  /** The process: its working directory, and how many directories it holds open.  Call k of openat,
      chdir or fchdir is granted or refused by the system. */
  class Process {
    const fs: FileSystem
    const granted: nat -> bool
    var calls: nat
    var cwd: Dir
    var openDirs: int
    var errno: Errno
    // the names opened, in order
    ghost var names: seq<string>

    constructor (fs: FileSystem, granted: nat -> bool, cwd: Dir)
      ensures this.fs == fs && this.cwd == cwd && openDirs == 0 && names == []
    {
      this.fs, this.granted, calls, this.cwd, openDirs, errno, names := fs, granted, 0, cwd, 0, NoError, [];
    }

    function Current(cdb: CdBuf): Dir
      reads this`cwd
    {
      match cdb case AtCwd => cwd case Fd(d) => d
    }

    // One of the calls from..to was refused.
    predicate Refused(from: nat, to: nat) {
      exists k :: from <= k < to && !granted(k)
    }

    // Whether the system grants the next call, at its own discretion.
    method Ask() returns (ok: bool)
      modifies this`calls, this`errno
      ensures calls == old(calls) + 1 && ok == granted(old(calls)) && (!ok ==> errno.Other?)
    {
      ok := granted(calls);
      if !ok {
        errno := Other(calls);
      }
      calls := calls + 1;
    }

    /** chdir; `nameLimit` says that a component is too long for the file system. */
    method Chdir(name: string, nameLimit: bool) returns (e: int)
      modifies this`calls, this`errno, this`cwd
      ensures var tried := name != "" && |name| < PATH_MAX && !nameLimit;
              && calls == old(calls) + (if tried then 1 else 0)
              && (e == 0 <==> tried && granted(old(calls)) && Resolve(fs, old(cwd), name).Some?)
              && (e != 0 ==> (errno == ENAMETOOLONG <==> name != "" && !tried))
      ensures if e == 0 then Resolve(fs, old(cwd), name) == Some(cwd) else e == -1 && cwd == old(cwd)
    {
      if name == "" {
        errno := ENOENT;
        return -1;
      }
      if |name| >= PATH_MAX || nameLimit {
        errno := ENAMETOOLONG;
        return -1;
      }
      var ok := Ask();
      if !ok {
        return -1;
      }
      match Resolve(fs, cwd, name) {
        case None =>
          errno := ENOENT;
          return -1;
        case Some(d) =>
          cwd := d;
          return 0;
      }
    }

    /** cdb_free */
    method CdbFree(cdb: CdBuf)
      modifies this`openDirs
      ensures openDirs == old(openDirs) - if cdb.Fd? then 1 else 0
    {
      if cdb.Fd? {
        openDirs := openDirs - 1;
      }
    }

    // Whether one call opens the name.
    predicate Opens(from: Dir, name: string, call: nat) {
      |name| < PATH_MAX && granted(call) && Resolve(fs, from, name).Some?
    }

    /** cdb_advance_fd: openat with the name relative to cdb; on success the old descriptor is closed. */
    method CdbAdvanceFd(cdb0: CdBuf, name: string) returns (err: int, cdb: CdBuf)
      modifies this`calls, this`errno, this`openDirs, this`names
      ensures calls == old(calls) + if |name| < PATH_MAX then 1 else 0
      ensures err == 0 <==> Opens(Current(cdb0), name, old(calls))
      ensures err == 0 ==>
                && cdb.Fd? && Resolve(fs, Current(cdb0), name) == Some(cdb.dir) && names == old(names) + [name]
                && openDirs == old(openDirs) + if cdb0.Fd? then 0 else 1
      ensures err != 0 ==> err == -1 && cdb == cdb0 && names == old(names) && openDirs == old(openDirs)
    {
      cdb := cdb0;
      if |name| >= PATH_MAX {
        errno := ENAMETOOLONG;
        return -1, cdb;
      }
      var ok := Ask();
      var found := Resolve(fs, Current(cdb0), name);
      if !ok || found.None? {
        return -1, cdb;
      }
      openDirs := openDirs + 1;
      names := names + [name];
      CdbFree(cdb);
      cdb := Fd(found.value);
      err := 0;
    }

    /** The name in buf from d to slash: the slash is overwritten by a terminator for the call and put
        back. */
    method AdvanceTo(cdb0: CdBuf, buf: array<char>, d: nat, slash: nat, ghost name: string) returns (err: int, cdb: CdBuf)
      requires d < slash < buf.Length && buf[slash] == '/' && '\0' !in name && buf[d..slash] == name
      modifies buf, this`calls, this`errno, this`openDirs, this`names
      ensures buf[..] == old(buf[..])
      ensures calls == old(calls) + if |name| < PATH_MAX then 1 else 0
      ensures err == 0 <==> Opens(Current(cdb0), name, old(calls))
      ensures err == 0 ==>
                && cdb.Fd? && Resolve(fs, Current(cdb0), name) == Some(cdb.dir) && names == old(names) + [name]
                && openDirs == old(openDirs) + if cdb0.Fd? then 0 else 1
      ensures err != 0 ==> err == -1 && cdb == cdb0 && names == old(names) && openDirs == old(openDirs)
    {
      ghost var was := buf[..];
      buf[slash] := '\0';
      assert buf[d..slash] == was[d..slash];
      var piece := StringAt(buf, d, slash);
      err, cdb := CdbAdvanceFd(cdb0, piece);
      buf[slash] := '/';
      assert buf[..] == was;
    }

    /** chdir_long: exactly when it succeeds, and how it ends otherwise; on every exit the caller's
        string is as before.  It gives up at the first component that no piece can hold, and then it
        forgets to close the directory that it has reached. */
    method ChdirLong(buf: array<char>, nameLimit: bool) returns (outcome: Outcome)
      requires IsCString(buf[..])
      modifies buf, this`calls, this`errno, this`cwd, this`openDirs, this`names
      ensures buf[..] == old(buf[..])
      ensures calls >= old(calls) && forall k :: old(calls) <= k < calls - 1 ==> granted(k)
      ensures var path, refused := buf[..buf.Length - 1], Refused(old(calls), calls);
              && outcome == Expected(fs, old(cwd), path, nameLimit, refused)
              && openDirs == old(openDirs) + (if Leaks(fs, old(cwd), path, refused) then 1 else 0)
              && (outcome.Done? ==> Resolve(fs, old(cwd), path) == Some(cwd))
      ensures !outcome.Done? ==> cwd == old(cwd)
      ensures Pieces(old(names), names)
    {
      hide Resolve;
      ghost var path := buf[..buf.Length - 1];
      var name := StringAt(buf, 0, buf.Length - 1);
      assert name == path;
      EmptyName(fs, cwd);
      var e := Chdir(name, nameLimit);
      if e == 0 {
        return Done;
      }
      if errno != ENAMETOOLONG {
        return Failed;
      }
      if |name| < PATH_MAX {
        return Aborted;
      }
      outcome := InPieces(buf, path, nameLimit);
    }

    /** The prefix of the name: two slashes and a host, or any other slashes; without either nothing
        is opened.  The rest starts at d; `goal` is the name up to the first component that no piece
        can hold. */
    method OpenPrefix(buf: array<char>, ghost path: string) returns (outcome: Outcome, cdb: CdBuf, d: nat)
      requires IsCString(buf[..]) && path == buf[..buf.Length - 1] && |path| >= PATH_MAX
      modifies buf, this`calls, this`errno, this`openDirs, this`names
      ensures buf[..] == old(buf[..]) && Pieces(old(names), names)
      ensures old(calls) <= calls <= old(calls) + 1
      ensures LongHost(path) ==>
                outcome == (if Slash(path, 2) == |path| then TooLong else Failed)
                && calls == old(calls) && openDirs == old(openDirs)
      ensures !LongHost(path) ==>
                && (outcome.Done? || outcome.Failed?)
                && (outcome.Failed? ==> openDirs == old(openDirs) && (Lost(fs, cwd, path) || Refused(old(calls), calls))
                                        && Reach(path) > 0)
      ensures outcome.Done? ==>
                && !Refused(old(calls), calls) && OnTheWay(fs, cwd, path, Current(cdb), d) && (cdb == AtCwd <==> d == 0)
                && openDirs == old(openDirs) + (if cdb.Fd? then 1 else 0)
    {
      hide Pieces, Resolve, Follow, FirstLong, OnTheWay, Lost;
      NoPieces(names);
      cdb := AtCwd;
      var err;
      var leading := SkipSlashes(buf, 0, path);
      d := 0;
      if leading == 2 {
        var slash := FindSlash(buf, 3, path);
        HostEnds(path);
        if slash == buf.Length - 1 {
          errno := ENAMETOOLONG;
          return TooLong, cdb, d;
        }
        SliceOf(buf[..], path, 0, slash);
        err, cdb := AdvanceTo(cdb, buf, 0, slash, path[..slash]);
        if slash < PATH_MAX {
          StartAtHost(fs, cwd, path, slash);
        }
        if err != 0 {
          return Failed, cdb, d;
        }
        PieceAdded(old(names), old(names), path[..slash]);
        d := SkipSlashes(buf, slash + 1, path);
      } else if leading > 0 {
        StartAtRoot(fs, cwd, path);
        err, cdb := CdbAdvanceFd(cdb, "/");
        if err != 0 {
          return Failed, cdb, d;
        }
        PieceAdded(old(names), old(names), "/");
        d := leading;
      } else {
        StartHere(fs, cwd, path);
      }
      return Done, cdb, d;
    }

    /** The part of chdir_long that works piece by piece. */
    method InPieces(buf: array<char>, ghost path: string, ghost nameLimit: bool) returns (outcome: Outcome)
      requires IsCString(buf[..]) && path == buf[..buf.Length - 1] && |path| >= PATH_MAX
      modifies buf, this`calls, this`errno, this`cwd, this`openDirs, this`names
      ensures buf[..] == old(buf[..]) && Pieces(old(names), names)
      ensures calls >= old(calls) && forall k :: old(calls) <= k < calls - 1 ==> granted(k)
      ensures var refused := Refused(old(calls), calls);
              && outcome == Expected(fs, old(cwd), path, nameLimit, refused)
              && openDirs == old(openDirs) + (if Leaks(fs, old(cwd), path, refused) then 1 else 0)
      ensures if outcome.Done? then Resolve(fs, old(cwd), path) == Some(cwd) else cwd == old(cwd)
    {
      hide FirstLong, Resolve, Follow, NonSlash, Slash, Pieces, LongHost, Expected, Leaks, OnTheWay, Lost;
      var cdb: CdBuf, d: nat, err: int;
      outcome, cdb, d := OpenPrefix(buf, path);
      if !outcome.Done? {
        if LongHost(path) {
          EndsAtHost(fs, cwd, path, nameLimit, Refused(old(calls), calls));
        } else {
          EndsEarly(fs, cwd, path, nameLimit, Refused(old(calls), calls));
        }
        return;
      }
      ghost var len := |path|;
      WayBegins(fs, cwd, path, Current(cdb), d);
      while PATH_MAX <= buf.Length - 1 - d
        invariant buf[..] == old(buf[..]) && d <= len && Pieces(old(names), names)
        invariant calls >= old(calls) && !Refused(old(calls), calls) && cwd == old(cwd)
        invariant OnTheWay(fs, cwd, path, Current(cdb), d) && (cdb == AtCwd <==> d == 0)
        invariant openDirs == old(openDirs) + if cdb.Fd? then 1 else 0
        decreases len - d
      {
        WayBegins(fs, cwd, path, Current(cdb), d);
        SliceOf(buf[..], path, d, d + PATH_MAX);
        var found, slash := LastSlash(buf, d, PATH_MAX);
        if !found {
          GivesUp(fs, cwd, path, nameLimit, Current(cdb), d);
          errno := ENAMETOOLONG;
          return TooLong;
        }
        SliceOf(buf[..], path, d, slash);
        SliceOf(buf[..], path, slash, slash);
        ghost var from, done := Current(cdb), names;
        err, cdb := AdvanceTo(cdb, buf, d, slash, path[d..slash]);
        Advance(fs, cwd, path, from, d, slash);
        if err != 0 {
          CdbFree(cdb);
          EndsEarly(fs, cwd, path, nameLimit, Refused(old(calls), calls));
          return Failed;
        }
        PieceAdded(old(names), done, path[d..slash]);
        d := SkipSlashes(buf, slash + 1, path);
      }
      WayEnds(fs, cwd, path, Current(cdb), d);
      PiecesTrans(old(names), names);
      outcome := LastStep(buf, path, cdb, d);
      EndsWhole(fs, old(cwd), path, nameLimit, Refused(old(calls), calls));
    }

    /** The rest of the name, short enough for one call, and the change of directory. */
    method LastStep(buf: array<char>, ghost path: string, cdb0: CdBuf, d: nat) returns (outcome: Outcome)
      requires IsCString(buf[..]) && path == buf[..buf.Length - 1]
      requires d <= |path| < d + PATH_MAX && (d < |path| ==> path[d] != '/') && cdb0.Fd?
      modifies this`calls, this`errno, this`cwd, this`openDirs, this`names
      ensures outcome.Done? || outcome.Failed?
      ensures calls > old(calls) && forall k :: old(calls) <= k < calls - 1 ==> granted(k)
      ensures outcome.Done? <==> Follow(fs, cdb0.dir, path[d..]).Some? && !Refused(old(calls), calls)
      ensures if outcome.Done? then Follow(fs, cdb0.dir, path[d..]) == Some(cwd) else cwd == old(cwd)
      ensures Pieces(old(names), names) && openDirs == old(openDirs) - 1
    {
      hide Pieces, Resolve, Follow;
      NoPieces(names);
      var cdb, err := cdb0, 0;
      if d < buf.Length - 1 {
        var name := StringAt(buf, d, buf.Length - 1);
        assert name == path[d..];
        LastPiece(fs, cdb0.dir, path, d);
        err, cdb := CdbAdvanceFd(cdb, name);
        if err != 0 {
          CdbFree(cdb);
          return Failed;
        }
        PieceAdded(old(names), old(names), name);
      } else {
        NoPiece(fs, cdb0.dir, path, d);
      }
      var ok := Ask();
      CdbFree(cdb);
      if !ok {
        return Failed;
      }
      cwd := cdb.dir;
      outcome := Done;
    }
  }

  // ---------------------------------------------------------------- How it ends

  /** How chdir_long ends; `Aborted` is a failed assertion. */
  datatype Outcome = Done | Failed | TooLong | Aborted

  // PATH_MAX characters without a slash from i on.
  predicate NoSlashFrom(name: string, i: int) {
    0 <= i <= |name| - PATH_MAX && '/' !in name[i..i + PATH_MAX]
  }

  /** Where the first component starts that no piece can hold. */
  function FirstLong(name: string, from: nat): (r: Option<nat>)
    requires from <= |name|
    ensures r.Some? ==> from <= r.value && NoSlashFrom(name, r.value)
    ensures forall j :: from <= j < (if r.Some? then r.value else |name|) ==> !NoSlashFrom(name, j)
    decreases |name| - from
  {
    if |name| - from < PATH_MAX then None
    else if '/' !in name[from..from + PATH_MAX] then Some(from)
    else FirstLong(name, from + 1)
  }

  // Two slashes and a host that do not fit into one piece.
  predicate LongHost(name: string) {
    NonSlash(name, 0) == 2 && Slash(name, 2) >= PATH_MAX
  }

  /** The end of a call for this name; `refused` says that the system refused one of the calls. */
  function Expected(fs: FileSystem, cwd: Dir, path: string, nameLimit: bool, refused: bool): Outcome {
    if |path| < PATH_MAX then
      if path != "" && nameLimit then Aborted
      else if !refused && Resolve(fs, cwd, path).Some? then Done
      else Failed
    else if LongHost(path) then (if Slash(path, 2) == |path| then TooLong else Failed)
    else
      match FirstLong(path, 0)
      case None => if !refused && Resolve(fs, cwd, path).Some? then Done else Failed
      case Some(i) => if i == 0 || (!refused && Resolve(fs, cwd, path[..i]).Some?) then TooLong else Failed
  }

  /** A descriptor stays open exactly when everything in front of the first component that no piece
      can hold was opened. */
  predicate Leaks(fs: FileSystem, cwd: Dir, path: string, refused: bool) {
    && |path| >= PATH_MAX && !LongHost(path) && !refused
    && match FirstLong(path, 0) {
         case None => false
         case Some(i) => i > 0 && Resolve(fs, cwd, path[..i]).Some?
       }
  }

  lemma EndsAtHost(fs: FileSystem, cwd: Dir, path: string, nameLimit: bool, refused: bool)
    requires |path| >= PATH_MAX && LongHost(path)
    ensures Expected(fs, cwd, path, nameLimit, refused) == (if Slash(path, 2) == |path| then TooLong else Failed)
    ensures !Leaks(fs, cwd, path, refused)
  {
  }

  lemma EndsEarly(fs: FileSystem, cwd: Dir, path: string, nameLimit: bool, refused: bool)
    requires |path| >= PATH_MAX && !LongHost(path) && Reach(path) > 0
    requires refused || Lost(fs, cwd, path)
    ensures Expected(fs, cwd, path, nameLimit, refused) == Failed && !Leaks(fs, cwd, path, refused)
  {
    assert path[..|path|] == path;
  }

  lemma GivesUp(fs: FileSystem, cwd: Dir, path: string, nameLimit: bool, dir: Dir, d: nat)
    requires |path| >= PATH_MAX && !LongHost(path) && OnTheWay(fs, cwd, path, dir, d)
    requires d + PATH_MAX <= |path| && '/' !in path[d..d + PATH_MAX]
    ensures Expected(fs, cwd, path, nameLimit, false) == TooLong && (Leaks(fs, cwd, path, false) <==> d > 0)
  {
    LongHere(path, d);
    NoPiece(fs, dir, path[..d], d);
  }

  lemma EndsWhole(fs: FileSystem, cwd: Dir, path: string, nameLimit: bool, refused: bool)
    requires |path| >= PATH_MAX && !LongHost(path) && FirstLong(path, 0) == None
    ensures Expected(fs, cwd, path, nameLimit, refused)
            == if !refused && Resolve(fs, cwd, path).Some? then Done else Failed
    ensures !Leaks(fs, cwd, path, refused)
  {
  }

  // Nothing is reached by the part of the name that can be walked in pieces.
  predicate Lost(fs: FileSystem, cwd: Dir, path: string) {
    Resolve(fs, cwd, path[..Reach(path)]) == None
  }

  /** With everything in front of d opened, dir and the rest from d on stand for that part. */
  predicate OnTheWay(fs: FileSystem, cwd: Dir, path: string, dir: Dir, d: nat) {
    var e := Reach(path);
    && d <= e && (d < |path| ==> path[d] != '/') && FirstLong(path, d) == FirstLong(path, 0)
    && (e > 0 ==> Resolve(fs, cwd, path[..e]) == Follow(fs, dir, path[d..e]))
  }

  lemma WayBegins(fs: FileSystem, cwd: Dir, path: string, dir: Dir, d: nat)
    requires OnTheWay(fs, cwd, path, dir, d)
    ensures d <= |path| && (d < |path| ==> path[d] != '/')
  {
  }

  /** One piece: the way goes on behind it, or leads nowhere. */
  lemma Advance(fs: FileSystem, cwd: Dir, path: string, dir: Dir, d: nat, slash: nat)
    requires OnTheWay(fs, cwd, path, dir, d) && d < slash < |path| && slash < d + PATH_MAX && path[slash] == '/'
    ensures Reach(path) > 0
    ensures match Resolve(fs, dir, path[d..slash])
            case None => Lost(fs, cwd, path)
            case Some(next) => OnTheWay(fs, cwd, path, next, NonSlash(path, slash + 1))
  {
    hide Resolve, Follow, FirstLong;
    var e := Reach(path);
    var goal, next := path[..e], NonSlash(path, slash + 1);
    ReachEnds(path);
    SlashBefore(path, d, slash);
    NonSlashCut(path, e, slash + 1);
    LongSkip(path, d, slash, next);
    PieceStep(fs, dir, goal, d, slash);
    assert goal[d..slash] == path[d..slash] && goal[d..] == path[d..e] && goal[next..] == path[next..e];
  }

  lemma StartAtHost(fs: FileSystem, cwd: Dir, path: string, slash: nat)
    requires NonSlash(path, 0) == 2 && |path| >= PATH_MAX && slash == Slash(path, 2) < |path| && slash < PATH_MAX
    ensures Reach(path) > 0
    ensures match Resolve(fs, cwd, path[..slash])
            case None => Lost(fs, cwd, path)
            case Some(next) => OnTheWay(fs, cwd, path, next, NonSlash(path, slash + 1))
  {
    hide Resolve, Follow, FirstLong;
    var e := Reach(path);
    var goal, next := path[..e], NonSlash(path, slash + 1);
    ReachEnds(path);
    HostReach(path);
    HostPrefix(fs, cwd, goal, slash);
    NonSlashCut(path, e, slash + 1);
    LongSkip(path, 0, slash, next);
    match Resolve(fs, cwd, path[..slash])
    case None =>
    case Some(at) =>
      FollowSkip(fs, at, goal, slash);
      assert NonSlash(goal, slash) == next && goal[next..] == path[next..e];
  }

  lemma StartAtRoot(fs: FileSystem, cwd: Dir, path: string)
    requires NonSlash(path, 0) != 0 && NonSlash(path, 0) != 2
    ensures Reach(path) > 0 && Resolve(fs, cwd, "/") == Some(fs.root)
    ensures OnTheWay(fs, cwd, path, fs.root, NonSlash(path, 0))
  {
    hide Resolve, Follow, FirstLong;
    var e, next := Reach(path), NonSlash(path, 0);
    ReachEnds(path);
    NonSlashCut(path, e, 0);
    LongSkip(path, 0, 0, next);
    RootPrefix(fs, cwd, path[..e]);
    assert path[..e][next..] == path[next..e];
  }

  lemma StartHere(fs: FileSystem, cwd: Dir, path: string)
    requires NonSlash(path, 0) == 0
    ensures OnTheWay(fs, cwd, path, cwd, 0)
  {
    var e := Reach(path);
    ReachEnds(path);
    NonSlashCut(path, e, 0);
    if e > 0 {
      RelativePath(fs, cwd, path[..e]);
      assert path[0..e] == path[..e];
    }
  }

  lemma WayEnds(fs: FileSystem, cwd: Dir, path: string, dir: Dir, d: nat)
    requires OnTheWay(fs, cwd, path, dir, d) && d <= |path| < d + PATH_MAX && |path| >= PATH_MAX
    ensures FirstLong(path, 0) == None && d > 0 && (d < |path| ==> path[d] != '/')
    ensures Resolve(fs, cwd, path) == Follow(fs, dir, path[d..])
  {
    LongNone(path, d);
    assert path[..|path|] == path && path[d..|path|] == path[d..];
  }

  /** The smallest kind of leak: a slash, and a component that no piece can hold. */
  lemma SlashAndLetters(fs: FileSystem, cwd: Dir, letters: string, nameLimit: bool)
    requires |letters| == PATH_MAX && '/' !in letters
    ensures Leaks(fs, cwd, "/" + letters, false)
    ensures Expected(fs, cwd, "/" + letters, nameLimit, false) == TooLong
  {
    var path := "/" + letters;
    assert path[1..1 + PATH_MAX] == letters && path[0..PATH_MAX][0] == '/' && path[..1] == "/";
    assert letters[0] in letters;
    assert NonSlash(path, 1) == 1;
    assert FirstLong(path, 1) == Some(1);
    StartAtRoot(fs, cwd, path);
  }

  // The part of the name that can be walked in pieces.
  function Reach(path: string): (e: nat)
    ensures e <= |path|
  {
    match FirstLong(path, 0) case None => |path| case Some(i) => i
  }

  lemma PiecesTrans(a: seq<string>, b: seq<string>)
    requires Pieces(a, b)
    ensures forall c :: Pieces(b, c) ==> Pieces(a, c)
  {
  }

  lemma LongHere(name: string, d: nat)
    requires d + PATH_MAX <= |name| && '/' !in name[d..d + PATH_MAX]
    ensures FirstLong(name, d) == Some(d)
  {
  }

  lemma LongNone(name: string, d: nat)
    requires d <= |name| < d + PATH_MAX
    ensures FirstLong(name, d) == None
  {
  }

  // A component that no piece can hold starts behind a slash.
  lemma ReachEnds(path: string)
    ensures var e := Reach(path); e < |path| ==> path[e] != '/' && (e > 0 ==> path[e - 1] == '/')
    ensures |path| >= PATH_MAX && Reach(path) == 0 ==> FirstLong(path, 0) == Some(0)
  {
    var e := Reach(path);
    if e < |path| {
      assert forall k :: e <= k < e + PATH_MAX ==> path[k] in path[e..e + PATH_MAX];
      if e > 0 && path[e - 1] != '/' {
        assert NoSlashFrom(path, e - 1);
      }
    }
  }

  // A slash within reach of d is in front of that component.
  lemma SlashBefore(path: string, d: nat, slash: nat)
    requires d <= slash < |path| && slash < d + PATH_MAX && path[slash] == '/' && FirstLong(path, d) == FirstLong(path, 0)
    ensures slash < Reach(path)
  {
    match FirstLong(path, 0)
    case None =>
    case Some(i) =>
      assert forall k :: i <= k < i + PATH_MAX ==> path[k] in path[i..i + PATH_MAX];
  }

  // Neither a piece nor the slashes behind it hold the start of a component that is too long.
  lemma {:induction false} LongSkip(path: string, d: nat, slash: nat, next: nat)
    requires d <= slash < next <= |path| && slash < d + PATH_MAX
    requires path[slash] == '/' && forall k :: slash <= k < next ==> path[k] == '/'
    ensures FirstLong(path, d) == FirstLong(path, next)
    decreases next - d
  {
    if |path| - d >= PATH_MAX {
      var at := if d < slash then slash else d;
      assert path[d..d + PATH_MAX][at - d] == '/';
      if d + 1 < next {
        LongSkip(path, d + 1, if d < slash then slash else d + 1, next);
      }
    }
  }

  lemma {:induction false} NonSlashCut(path: string, e: nat, k: nat)
    requires k <= e <= |path| && (e < |path| ==> path[e] != '/')
    ensures NonSlash(path, k) <= e && NonSlash(path[..e], k) == NonSlash(path, k)
    decreases e - k
  {
    if k < e && path[k] == '/' {
      NonSlashCut(path, e, k + 1);
    }
  }

  lemma {:induction false} SlashCut(path: string, e: nat, k: nat)
    requires k <= |path| && Slash(path, k) < e <= |path|
    ensures Slash(path[..e], k) == Slash(path, k)
    decreases e - k
  {
    if path[k] != '/' {
      SlashCut(path, e, k + 1);
    }
  }

  // A host that fits is in front of that component.
  lemma HostReach(path: string)
    requires NonSlash(path, 0) == 2 && |path| >= PATH_MAX && Slash(path, 2) < PATH_MAX && Slash(path, 2) < |path|
    ensures var goal := path[..Reach(path)];
            && |goal| > 2 && NonSlash(goal, 0) == 2 && Slash(goal, 2) == Slash(path, 2) < |goal|
            && goal[..Slash(path, 2)] == path[..Slash(path, 2)]
  {
    SlashBefore(path, 0, Slash(path, 2));
    ReachEnds(path);
    SlashCut(path, Reach(path), 2);
    NonSlashCut(path, Reach(path), 0);
  }

  lemma EmptyName(fs: FileSystem, cwd: Dir)
    ensures Resolve(fs, cwd, "") == None
  {
  }

  lemma LastPiece(fs: FileSystem, from: Dir, name: string, d: nat)
    requires d < |name| && name[d] != '/'
    ensures Resolve(fs, from, name[d..]) == Follow(fs, from, name[d..])
  {
    assert name[d..][0] != '/';
  }

  lemma NoPiece(fs: FileSystem, from: Dir, name: string, d: nat)
    requires d == |name|
    ensures Follow(fs, from, name[d..]) == Some(from)
  {
  }

  lemma RelativePath(fs: FileSystem, cwd: Dir, name: string)
    requires NonSlash(name, 0) == 0 && name != ""
    ensures Resolve(fs, cwd, name) == Follow(fs, cwd, name)
  {
  }

  lemma HostEnds(name: string)
    requires NonSlash(name, 0) == 2 && |name| > 2
    ensures Slash(name, 2) == Slash(name, 3)
  {
  }

  lemma HostPrefix(fs: FileSystem, cwd: Dir, name: string, slash: nat)
    requires NonSlash(name, 0) == 2 && |name| > 2 && slash == Slash(name, 2) < |name|
    ensures Resolve(fs, cwd, name[..slash]) == fs.host(name[..slash])
    ensures Resolve(fs, cwd, name) == Bind(fs, Resolve(fs, cwd, name[..slash]), name[slash..])
  {
    var host := name[..slash];
    assert host + "" == host && host[|host|..] == "";
  }

  lemma RootPrefix(fs: FileSystem, cwd: Dir, name: string)
    requires NonSlash(name, 0) != 0 && NonSlash(name, 0) != 2
    ensures Resolve(fs, cwd, "/") == Some(fs.root)
    ensures Resolve(fs, cwd, name) == Follow(fs, fs.root, name[NonSlash(name, 0)..])
  {
    assert name[0..] == name;
    FollowSkip(fs, fs.root, name, 0);
  }

  // A NUL-terminated buffer.
  predicate IsCString(buf: seq<char>) {
    |buf| > 0 && buf[|buf| - 1] == '\0' && '\0' !in buf[..|buf| - 1]
  }

  // What was opened between two moments: names that are not empty and that one call can take.
  ghost predicate Pieces(before: seq<string>, now: seq<string>) {
    before <= now && forall i :: |before| <= i < |now| ==> 0 < |now[i]| < PATH_MAX
  }

  lemma PieceAdded(before: seq<string>, now: seq<string>, name: string)
    requires Pieces(before, now) && 0 < |name| < PATH_MAX
    ensures Pieces(before, now + [name]) && before != now + [name]
  {
  }

  lemma NoPieces(names: seq<string>)
    ensures Pieces(names, names)
  {
  }

  lemma SliceOf(buf: seq<char>, name: string, d: nat, e: nat)
    requires |name| <= |buf| && name == buf[..|name|] && d <= e <= |name|
    ensures buf[d..e] == name[d..e] && (d < |name| ==> buf[d] == name[d])
  {
    assert forall i :: 0 <= i < |name| ==> buf[i] == name[i];
  }

  /** Reading the C string at d: it ends at the terminator put at `end`. */
  method StringAt(buf: array<char>, d: nat, ghost end: nat) returns (name: string)
    requires d <= end < buf.Length && buf[end] == '\0' && forall k :: d <= k < end ==> buf[k] != '\0'
    ensures name == buf[d..end]
  {
    var i := d;
    while buf[i] != '\0'
      invariant d <= i <= end
      decreases end - i
    {
      i := i + 1;
    }
    name := buf[d..i];
  }

  /** memrchr for a slash among the n characters from d on. */
  method LastSlash(buf: array<char>, d: nat, n: nat) returns (found: bool, slash: nat)
    requires d + n <= buf.Length
    ensures found ==> d <= slash < d + n && buf[slash] == '/'
    ensures !found ==> '/' !in buf[d..d + n]
  {
    var i := n;
    while i > 0
      invariant 0 <= i <= n && '/' !in buf[d + i..d + n]
    {
      i := i - 1;
      if buf[d + i] == '/' {
        return true, d + i;
      }
    }
    return false, 0;
  }

  /** strspn and find_non_slash */
  method SkipSlashes(buf: array<char>, d: nat, ghost name: string) returns (r: nat)
    requires IsCString(buf[..]) && name == buf[..buf.Length - 1] && d <= |name|
    ensures r == NonSlash(name, d)
  {
    r := d;
    while buf[r] == '/'
      invariant d <= r <= |name| && NonSlash(name, r) == NonSlash(name, d)
      decreases |name| - r
    {
      assert r < |name|;
      r := r + 1;
    }
  }

  /** memchr for a slash from d on. */
  method FindSlash(buf: array<char>, d: nat, ghost name: string) returns (slash: nat)
    requires IsCString(buf[..]) && name == buf[..buf.Length - 1] && d <= |name|
    ensures slash == Slash(name, d)
  {
    slash := d;
    while slash < buf.Length - 1 && buf[slash] != '/'
      invariant d <= slash <= |name| && Slash(name, slash) == Slash(name, d)
    {
      slash := slash + 1;
    }
  }
}
