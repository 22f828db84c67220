/** The table of directory names that lib/fchdir.c keeps beside the descriptor table, with the calls
    to it from open, close, dup, dup2 and fcntl. */
module Fchdir {
  import opened Common

  datatype Errno = NoError | EBADF | ENOTDIR | ENOMEM

  /** What a descriptor refers to; the name of a directory is the absolute name it was opened by. */
  datatype Node = Plain | Directory(name: string)

  type Kernel = map<int, Node>

  /** A system call in a run, with the system's part of the outcome: the descriptor it picks, and
      whether memory is granted for the table and for the name. */
  datatype Call =
    | Open(d: int, node: Node, room: bool, named: bool)
    | Dup(fd: int, d: int, room: bool, named: bool)
    | Dup2(fd: int, desired: int, granted: bool, room: bool, named: bool)
    | Close(fd: int)
  {
    // The call is about this descriptor.
    predicate Touches(e: int) {
      match this
      case Open(d, _, _, _) => e == d
      case Dup(_, d, _, _) => e == d
      case Dup2(_, desired, _, _, _) => e == desired
      case Close(fd) => e == fd
    }
  }

  function Grown(size: nat, fd: nat): nat {
    if fd < size then size
    else if 2 * size + 1 <= fd then fd + 1
    else 2 * size + 1
  }

  /** The kernel's table, and the size of the name table, after placing node at d: registering a
      directory can fail, and then the new descriptor is closed again. */
  function Placed(k: Kernel, size: nat, d: nat, node: Node, room: bool, named: bool): (Kernel, nat) {
    if node.Plain? then (k[d := node], size)
    else if d >= size && !room then (k - {d}, size)
    else (if named then k[d := node] else k - {d}, Grown(size, d))
  }

  function After(k: Kernel, size: nat, call: Call): (Kernel, nat) {
    match call
    case Open(d, node, room, named) =>
      if d < 0 || d in k then (k, size) else Placed(k, size, d, node, room, named)
    case Dup(fd, d, room, named) =>
      if fd !in k || d < 0 || d in k then (k, size) else Placed(k, size, d, k[fd], room, named)
    case Dup2(fd, desired, granted, room, named) =>
      if fd !in k || desired < 0 || fd == desired || !granted then (k, size)
      else Placed(k, size, desired, k[fd], room, named)
    case Close(fd) => (k - {fd}, size)
  }

  // No memory for the slot or for the name of a directory.
  predicate Unnamed(node: Node, d: int, size: nat, room: bool, named: bool) {
    node.Directory? && ((d >= size && !room) || !named)
  }

  /** What each call does: nothing to any other descriptor; a new one refers to what was opened or
      copied, unless there is no memory for its name, and then it is closed; a call that is refused
      changes nothing. */
  lemma CallEffect(k: Kernel, size: nat, call: Call)
    ensures var (k', size') := After(k, size, call);
            && size <= size'
            && (forall e :: e in k'.Keys + k.Keys && !call.Touches(e) ==> e in k' && e in k && k'[e] == k[e])
            && match call
               case Open(d, node, room, named) =>
                 if d < 0 || d in k then k' == k
                 else if Unnamed(node, d, size, room, named) then d !in k'
                 else d in k' && k'[d] == node
               case Dup(fd, d, room, named) =>
                 if fd !in k || d < 0 || d in k then k' == k
                 else if Unnamed(k[fd], d, size, room, named) then d !in k'
                 else d in k' && k'[d] == k[fd]
               case Dup2(fd, desired, granted, room, named) =>
                 if fd !in k || desired < 0 || fd == desired || !granted then k' == k
                 else if Unnamed(k[fd], desired, size, room, named) then desired !in k'
                 else desired in k' && k'[desired] == k[fd]
               case Close(fd) => fd !in k'
  {
  }

  function AfterAll(k: Kernel, size: nat, calls: seq<Call>): (Kernel, nat)
    decreases |calls|
  {
    if calls == [] then (k, size)
    else
      var (k', size') := After(k, size, calls[0]);
      AfterAll(k', size', calls[1..])
  }

  class NameTable {
    var kernel: Kernel
    var dirs: array<Option<string>>
    var errno: Errno

    /** A slot holds a name exactly when its descriptor is open on a directory, and then the name is
        the directory's. */
    ghost predicate Valid()
      reads this, dirs
    {
      && (forall d :: d in kernel ==> d >= 0)
      && (forall d :: d in kernel && kernel[d].Directory? ==> d < dirs.Length)
      && forall d :: 0 <= d < dirs.Length ==>
           dirs[d] == if d in kernel && kernel[d].Directory? then Some(kernel[d].name) else None
    }

    // Valid but for the slot of d, which belongs to a call under way.
    ghost predicate ValidExcept(d: int)
      reads this, dirs
    {
      && (forall e :: e in kernel ==> e >= 0)
      && (forall e :: e != d && e in kernel && kernel[e].Directory? ==> e < dirs.Length)
      && forall e :: e != d && 0 <= e < dirs.Length ==>
           dirs[e] == if e in kernel && kernel[e].Directory? then Some(kernel[e].name) else None
    }

    constructor ()
      ensures Valid() && kernel == map[] && dirs.Length == 0 && fresh(dirs)
    {
      kernel, errno := map[], NoError;
      dirs := new Option<string>[0];
    }

    /** ensure_dirs_slot: make room for the slot of fd and empty it; all others are preserved. */
    method EnsureDirsSlot(fd: nat, room: bool) returns (ok: bool)
      modifies this`dirs, this`errno, dirs
      ensures ok <==> fd < old(dirs.Length) || room
      ensures !ok ==> dirs == old(dirs) && dirs[..] == old(dirs[..]) && errno == ENOMEM
      ensures ok ==> dirs.Length == Grown(old(dirs.Length), fd) && fd < dirs.Length && dirs[fd] == None
      ensures ok ==> dirs == old(dirs) || fresh(dirs)
      ensures ok ==> forall i :: 0 <= i < dirs.Length && i != fd ==>
                       dirs[i] == if i < old(dirs.Length) then old(dirs[i]) else None
    {
      if fd < dirs.Length {
        dirs[fd] := None;
      } else {
        var newAllocated := 2 * dirs.Length + 1;
        if newAllocated <= fd {
          newAllocated := fd + 1;
        }
        if !room {
          errno := ENOMEM;
          return false;
        }
        var newDirs := new Option<string>[newAllocated];
        forall i | 0 <= i < dirs.Length {
          newDirs[i] := dirs[i];
        }
        forall i | dirs.Length <= i < newAllocated {
          newDirs[i] := None;
        }
        dirs := newDirs;
      }
      return true;
    }

    /** _gl_unregister_fd */
    method UnregisterFd(fd: int)
      requires ValidExcept(fd) && fd !in kernel
      modifies dirs
      ensures Valid()
    {
      if 0 <= fd < dirs.Length {
        dirs[fd] := None;
      }
    }

    /** close: a descriptor that was not open is not unregistered. */
    method CloseFd(fd: int) returns (r: int)
      requires ValidExcept(fd) && (fd !in kernel ==> Valid())
      modifies this`kernel, this`errno, dirs
      ensures Valid() && kernel == old(kernel) - {fd}
      ensures if fd in old(kernel) then r == 0 && errno == old(errno) else r == -1 && errno == EBADF
    {
      if fd !in kernel {
        errno := EBADF;
        return -1;
      }
      kernel := kernel - {fd};
      UnregisterFd(fd);
      return 0;
    }

    /** _gl_register_fd, where fstat tells a directory apart; get_name fails without memory. */
    method RegisterFd(fd: nat, absoluteName: string, room: bool, named: bool) returns (r: int)
      requires fd in kernel && ValidExcept(fd)
      requires kernel[fd].Directory? ==> kernel[fd].name == absoluteName
      requires 0 <= fd < dirs.Length ==> dirs[fd] == None
      modifies this, dirs
      ensures Valid() && (dirs == old(dirs) || fresh(dirs))
      ensures (kernel, dirs.Length) == Placed(old(kernel), old(dirs.Length), fd, old(kernel)[fd], room, named)
      ensures r == if fd in kernel then fd else -1
    {
      assert kernel[fd := kernel[fd]] == kernel;
      if kernel[fd].Directory? {
        var ok := EnsureDirsSlot(fd, room);
        if ok && named {
          dirs[fd] := Some(absoluteName);
        } else {
          var savedErrno := if ok then ENOMEM else errno;
          var _ := CloseFd(fd);
          errno := savedErrno;
          return -1;
        }
      }
      return fd;
    }

    /** _gl_register_dup: newfd has just become a duplicate of oldfd; it may have been open before. */
    method RegisterDup(oldfd: int, newfd: int, room: bool, named: bool) returns (r: int)
      requires oldfd in kernel && newfd in kernel && oldfd != newfd && kernel[newfd] == kernel[oldfd]
      requires ValidExcept(newfd)
      modifies this, dirs
      ensures Valid() && (dirs == old(dirs) || fresh(dirs))
      ensures (kernel, dirs.Length) == Placed(old(kernel), old(dirs.Length), newfd, old(kernel)[newfd], room, named)
      ensures r == if newfd in kernel then newfd else -1
    {
      assert kernel[newfd := kernel[newfd]] == kernel;
      if oldfd < dirs.Length && dirs[oldfd].Some? {
        var ok := EnsureDirsSlot(newfd, room);
        if ok && named {
          dirs[newfd] := dirs[oldfd];
        } else {
          var savedErrno := if ok then ENOMEM else errno;
          var _ := CloseFd(newfd);
          errno := savedErrno;
          return -1;
        }
      } else if newfd < dirs.Length {
        dirs[newfd] := None;
      }
      return newfd;
    }

    /** _gl_directory_name: the name of an open directory; otherwise errno tells why not. */
    method DirectoryName(fd: int) returns (name: Option<string>)
      requires Valid()
      modifies this`errno
      ensures Valid()
      ensures name == if fd in kernel && kernel[fd].Directory? then Some(kernel[fd].name) else None
      ensures name == None ==> errno == if fd in kernel then ENOTDIR else EBADF
    {
      if 0 <= fd < dirs.Length && dirs[fd].Some? {
        return dirs[fd];
      }
      errno := if fd in kernel then ENOTDIR else EBADF;
      return None;
    }

    /** One call of the replaced functions; a refused call changes nothing. */
    method Perform(call: Call) returns (r: int)
      requires Valid()
      modifies this, dirs
      ensures Valid() && (dirs == old(dirs) || fresh(dirs))
      ensures (kernel, dirs.Length) == After(old(kernel), old(dirs.Length), call)
      ensures match call
              case Open(d, node, room, named) =>
                r == if d < 0 || d in old(kernel) || Unnamed(node, d, old(dirs.Length), room, named) then -1 else d
              case Dup(fd, d, room, named) =>
                r == if fd !in old(kernel) || d < 0 || d in old(kernel)
                        || Unnamed(old(kernel)[fd], d, old(dirs.Length), room, named) then -1 else d
              case Dup2(fd, desired, granted, room, named) =>
                r == if fd !in old(kernel) || desired < 0 then -1
                     else if fd == desired then fd
                     else if !granted || Unnamed(old(kernel)[fd], desired, old(dirs.Length), room, named) then -1
                     else desired
              case Close(fd) => r == if fd in old(kernel) then 0 else -1
    {
      match call {
        case Open(d, node, room, named) =>
          if d < 0 || d in kernel {
            return -1;
          }
          kernel := kernel[d := node];
          r := RegisterFd(d, if node.Directory? then node.name else "", room, named);
          PlacedAgain(old(kernel), d, node);
        case Dup(fd, d, room, named) =>
          if fd !in kernel || d < 0 || d in kernel {
            errno := EBADF;
            return -1;
          }
          kernel := kernel[d := kernel[fd]];
          r := RegisterDup(fd, d, room, named);
          PlacedAgain(old(kernel), d, old(kernel)[fd]);
        case Dup2(fd, desired, granted, room, named) =>
          if fd !in kernel || desired < 0 {
            errno := EBADF;
            return -1;
          }
          if fd == desired {
            return fd;
          }
          if !granted {
            errno := EBADF;
            return -1;
          }
          kernel := kernel[desired := kernel[fd]];
          r := RegisterDup(fd, desired, room, named);
          PlacedAgain(old(kernel), desired, old(kernel)[fd]);
        case Close(fd) =>
          r := CloseFd(fd);
      }
    }

    /** Every run of calls, whatever memory is refused on the way, keeps names and descriptors in
        step. */
    method Run(calls: seq<Call>)
      requires Valid()
      modifies this, dirs
      ensures Valid()
      ensures (kernel, dirs.Length) == AfterAll(old(kernel), old(dirs.Length), calls)
    {
      ghost var goal := AfterAll(kernel, dirs.Length, calls);
      var i := 0;
      while i < |calls|
        invariant i <= |calls| && Valid() && (dirs == old(dirs) || fresh(dirs))
        invariant AfterAll(kernel, dirs.Length, calls[i..]) == goal
      {
        assert calls[i..][0] == calls[i] && calls[i..][1..] == calls[i + 1..];
        var r := Perform(calls[i]);
        i := i + 1;
      }
    }
  }

  // Placing a node where it already is, is placing it in the table before.
  lemma PlacedAgain(k: Kernel, d: nat, node: Node)
    ensures forall room, named, n: nat :: Placed(k[d := node], n, d, node, room, named) == Placed(k, n, d, node, room, named)
  {
    assert k[d := node][d := node] == k[d := node];
    assert k[d := node] - {d} == k - {d};
  }

  // ---------------------------------------------------------------- Where a name comes from

  /** How a descriptor came about: the call that opened it, -1 for one that was there before, and the
      descriptors that it was copied through, itself last. */
  datatype Trail = Trail(opening: int, path: seq<int>)

  type Trails = map<int, Trail>

  /** A copy goes on from the trail of its original; k is the table before call i and k' after it. */
  function TrailStep(k: Kernel, k': Kernel, trails: Trails, call: Call, i: nat): Trails {
    match call
    case Open(d, _, _, _) =>
      if d < 0 || d in k then trails else if d in k' then trails[d := Trail(i, [d])] else trails - {d}
    case Dup(fd, d, _, _) =>
      if fd !in k || d < 0 || d in k then trails else Copied(k', trails, fd, d)
    case Dup2(fd, desired, granted, _, _) =>
      if fd !in k || desired < 0 || fd == desired || !granted then trails else Copied(k', trails, fd, desired)
    case Close(fd) => trails - {fd}
  }

  function Copied(k': Kernel, trails: Trails, fd: int, d: int): Trails {
    if d in k' && fd in trails then trails[d := Trail(trails[fd].opening, trails[fd].path + [d])] else trails - {d}
  }

  function TrailsAfter(k: Kernel, size: nat, trails: Trails, calls: seq<Call>, i: nat): Trails
    decreases |calls|
  {
    if calls == [] then trails
    else
      var (k', size') := After(k, size, calls[0]);
      TrailsAfter(k', size', TrailStep(k, k', trails, calls[0], i), calls[1..], i + 1)
  }

  function FirstTrails(k: Kernel): Trails {
    map d | d in k :: Trail(-1, [d])
  }

  // A trail starts where its node was opened, and ends at its descriptor.
  predicate FromOpen(start: Kernel, calls: seq<Call>, d: int, node: Node, trail: Trail) {
    && trail.path != [] && trail.path[|trail.path| - 1] == d
    && if 0 <= trail.opening < |calls| then
         var call := calls[trail.opening];
         call.Open? && call.d == trail.path[0] && call.node == node
       else trail.opening == -1 && trail.path[0] in start && start[trail.path[0]] == node
  }

  predicate AllFromOpens(start: Kernel, calls: seq<Call>, k: Kernel, trails: Trails) {
    trails.Keys == k.Keys && forall d :: d in k ==> FromOpen(start, calls, d, k[d], trails[d])
  }

  lemma TrailKept(start: Kernel, calls: seq<Call>, k: Kernel, size: nat, trails: Trails, i: nat)
    requires i < |calls| && AllFromOpens(start, calls, k, trails)
    ensures var k' := After(k, size, calls[i]).0;
            AllFromOpens(start, calls, k', TrailStep(k, k', trails, calls[i], i))
  {
    hide FromOpen;
    match calls[i]
    case Open(d, node, _, _) => TrailOpened(start, calls, i);
    case Dup(fd, d, _, _) =>
      if fd in k {
        TrailCopied(start, calls, fd, d, k[fd], trails[fd]);
      }
    case Dup2(fd, desired, _, _, _) =>
      if fd in k {
        TrailCopied(start, calls, fd, desired, k[fd], trails[fd]);
      }
    case Close(_) =>
  }

  lemma TrailOpened(start: Kernel, calls: seq<Call>, i: nat)
    requires i < |calls| && calls[i].Open?
    ensures FromOpen(start, calls, calls[i].d, calls[i].node, Trail(i, [calls[i].d]))
  {
  }

  lemma TrailCopied(start: Kernel, calls: seq<Call>, fd: int, d: int, node: Node, trail: Trail)
    requires FromOpen(start, calls, fd, node, trail)
    ensures FromOpen(start, calls, d, node, Trail(trail.opening, trail.path + [d]))
  {
  }

  lemma {:induction false} TrailsKept(start: Kernel, calls: seq<Call>, k: Kernel, size: nat, trails: Trails, i: nat)
    requires i <= |calls| && AllFromOpens(start, calls, k, trails)
    ensures AllFromOpens(start, calls, AfterAll(k, size, calls[i..]).0, TrailsAfter(k, size, trails, calls[i..], i))
    decreases |calls| - i
  {
    if i < |calls| {
      hide AllFromOpens, TrailStep, After;
      TrailKept(start, calls, k, size, trails, i);
      var (k', size') := After(k, size, calls[i]);
      assert calls[i..][0] == calls[i] && calls[i..][1..] == calls[i + 1..];
      TrailsKept(start, calls, k', size', TrailStep(k, k', trails, calls[i], i), i + 1);
    }
  }

  /** Every descriptor that is open at the end of a run refers to what its trail of copies starts
      from: the node that was opened there, name included, or that was there before. */
  lemma NamesComeFromOpens(k: Kernel, size: nat, calls: seq<Call>)
    ensures AllFromOpens(k, calls, AfterAll(k, size, calls).0, TrailsAfter(k, size, FirstTrails(k), calls, 0))
  {
    assert calls[0..] == calls;
    TrailsKept(k, calls, k, size, FirstTrails(k), 0);
  }
}
