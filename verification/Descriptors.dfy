/** Descriptor tables with lowest-free allocation, and the three replacement functions that climb to
    a wanted descriptor: lib/fdopendir.c, lib/dup2.c and lib/fcntl.c. */
module Descriptors {

  /** `Other` is none of those listed. */
  datatype Errno =
    | NoError | EBADF | EMFILE | EINVAL
    | ENOTDIR | ENOENT | EPERM | EACCES | ENOSYS | EOPNOTSUPP
    | Other(code: int)

  /** An open file, or the directory stream that was opened on the directory of one. */
  datatype File = Open(id: nat) | StreamOn(dir: File)

  type Table = map<int, File>

  predicate LowestFree(table: Table, d: int) {
    0 <= d && d !in table && forall m :: 0 <= m < d ==> m in table
  }

  /** How many descriptors below n are free. */
  function FreeBelow(table: Table, n: nat): nat {
    if n == 0 then 0 else FreeBelow(table, n - 1) + if n - 1 in table then 0 else 1
  }

  lemma {:induction false} UsingOneMore(table: Table, n: nat, d: int, f: File)
    requires 0 <= d < n && d !in table
    ensures FreeBelow(table[d := f], n) == FreeBelow(table, n) - 1
  {
    if d < n - 1 {
      UsingOneMore(table, n - 1, d, f);
    } else {
      UsingOther(table, n - 1, d, f);
    }
  }

  lemma {:induction false} UsingOther(table: Table, n: nat, d: int, f: File)
    requires n <= d
    ensures FreeBelow(table[d := f], n) == FreeBelow(table, n)
  {
    if n > 0 {
      UsingOther(table, n - 1, d, f);
    }
  }

  lemma {:induction false} NoneFree(table: Table, n: nat)
    ensures FreeBelow(table, n) == 0 <==> forall m :: 0 <= m < n ==> m in table
  {
    if n > 0 {
      NoneFree(table, n - 1);
    }
  }

  /** The descriptors of a process, of which there are at most `limit`. */
  class Process {
    var table: Table
    var errno: Errno
    const limit: nat

    ghost predicate Valid()
      reads this`table
    {
      forall d :: d in table ==> 0 <= d < limit
    }

    constructor (limit: nat)
      ensures Valid() && table == map[] && this.limit == limit
    {
      table, errno, this.limit := map[], NoError, limit;
    }

    predicate Full(t: Table) {
      forall d :: 0 <= d < limit ==> d in t
    }

    // The lowest free descriptor, or -1 when all are in use.
    method Allocate(f: File) returns (d: int)
      requires Valid()
      modifies this`table
      ensures Valid()
      ensures d == -1 ==> table == old(table) && Full(table)
      ensures d != -1 ==> d < limit && LowestFree(old(table), d) && table == old(table)[d := f]
    {
      d := 0;
      while d < limit && d in table
        invariant 0 <= d <= limit && forall m :: 0 <= m < d ==> m in table
      {
        d := d + 1;
      }
      if d == limit {
        return -1;
      }
      table := table[d := f];
    }

    method Dup(fd: int) returns (d: int)
      requires Valid()
      modifies this`table, this`errno
      ensures Valid()
      ensures d == -1 <==> fd !in old(table) || Full(old(table))
      ensures d == -1 ==> table == old(table) && errno == if fd in old(table) then EMFILE else EBADF
      ensures d != -1 ==> d < limit && LowestFree(old(table), d) && table == old(table)[d := old(table)[fd]]
    {
      if fd !in table {
        errno := EBADF;
        return -1;
      }
      d := Allocate(table[fd]);
      if d == -1 {
        errno := EMFILE;
      }
    }

    method Close(fd: int)
      requires Valid()
      modifies this`table, this`errno
      ensures Valid() && table == old(table) - {fd}
    {
      if fd !in table {
        errno := EBADF;
      }
      table := table - {fd};
    }

    // ---------------------------------------------------------------- fdopendir

    /** fd_clone_opendir: a stream on the directory of fd, when the system grants it. */
    method CloneOpendir(fd: int, granted: bool, why: Errno) returns (dir: int)
      requires Valid() && fd in table
      modifies this`table, this`errno
      ensures Valid()
      ensures dir == -1 ==> table == old(table)
      ensures dir != -1 ==> dir < limit && LowestFree(old(table), dir) && table == old(table)[dir := StreamOn(old(table)[fd])]
      ensures dir == -1 <==> !granted || Full(old(table))
      ensures dir == -1 ==> errno == if granted then EMFILE else why
    {
      if !granted {
        errno := why;
        return -1;
      }
      dir := Allocate(StreamOn(table[fd]));
      if dir == -1 {
        errno := EMFILE;
      }
    }

    /** fdopendir_with_dup: the stream has the descriptor fd itself, or fd is as before; nothing else
        changes, and the exit for a wrong descriptor is never taken. */
    method FdOpenDirWithDup(fd: int, olderDupFd: int, granted: bool, why: Errno) returns (dir: int)
      requires Valid()
      requires olderDupFd == -1 || (fd in table && olderDupFd in table && olderDupFd < fd - 1 && table[olderDupFd] == table[fd])
      modifies this`table, this`errno
      ensures Valid()
      ensures dir == -1 || (fd in old(table) && dir == fd)
      ensures dir == -1 ==> errno == if fd !in old(table) then EBADF else if olderDupFd == -1 && Full(old(table)) then EMFILE else why
      ensures dir != -1 <==>
              && fd in old(table) && granted
              && (olderDupFd != -1 || !Full(old(table)))
      ensures table == if dir == fd && fd in old(table) then old(table)[fd := StreamOn(old(table)[fd])] else old(table)
      decreases FreeBelow(table, if fd < 0 then 0 else fd)
    {
      var dupFd := Dup(fd);
      if dupFd < 0 && errno == EMFILE {
        dupFd := olderDupFd;
      }
      if dupFd < 0 {
        return -1;
      }
      var savedErrno;
      if dupFd < fd - 1 && dupFd != olderDupFd {
        UsingOneMore(old(table), fd, dupFd, table[dupFd]);
        dir := FdOpenDirWithDup(fd, dupFd, granted, why);
        savedErrno := errno;
      } else {
        Close(fd);
        assert LowestFree(table, fd);
        dir := CloneOpendir(dupFd, granted, why);
        savedErrno := errno;
        if dir == -1 {
          var fd1 := Dup(dupFd);
          assert fd1 == fd;
        }
      }
      if dupFd != olderDupFd {
        Close(dupFd);
      }
      errno := savedErrno;
    }

    predicate TwoFree(t: Table) {
      exists a, b :: 0 <= a < b < limit && a !in t && b !in t
    }

    lemma AfterOne(t: Table, d: int, f: File)
      requires 0 <= d < limit && d !in t
      ensures TwoFree(t) <==> !Full(t[d := f])
    {
      if !Full(t[d := f]) {
        var m :| 0 <= m < limit && m !in t[d := f];
        assert m !in t && m != d;
        var a, b := if m < d then m else d, if m < d then d else m;
        assert 0 <= a < b < limit && a !in t && b !in t;
      }
      if TwoFree(t) {
        var a, b :| 0 <= a < b < limit && a !in t && b !in t;
        assert (if a == d then b else a) !in t[d := f];
      }
    }

    // errno values after which fdopendir tries once more through the working directory
    static predicate ExpectedErrno(e: Errno) {
      e.ENOTDIR? || e.ENOENT? || e.EPERM? || e.EACCES? || e.ENOSYS? || e.EOPNOTSUPP?
    }

    /** fdopendir: the second attempt keeps the working directory open in a descriptor of its own,
        or by name; `cwd` says whether it can be opened or at least named.  Failing to save the
        working directory ends the program. */
    method FdOpenDir(fd: int, granted: bool, why: Errno, cwdFile: File, cwdOpens: bool, cwdNamed: bool,
                     grantedAgain: bool, whyAgain: Errno)
      returns (dir: int, exited: bool)
      requires Valid()
      modifies this`table, this`errno
      ensures Valid()
      ensures dir == -1 || (fd in old(table) && dir == fd)
      ensures var again := fd in old(table) && !Full(old(table)) && !granted && ExpectedErrno(why);
              && (exited <==> again && !cwdOpens && !cwdNamed)
              && (dir != -1 <==>
                    || (fd in old(table) && !Full(old(table)) && granted)
                    || (again && grantedAgain && if cwdOpens then TwoFree(old(table)) else cwdNamed))
      ensures table == if dir == fd && fd in old(table) then old(table)[fd := StreamOn(old(table)[fd])] else old(table)
    {
      exited := false;
      dir := FdOpenDirWithDup(fd, -1, granted, why);
      if dir == -1 && ExpectedErrno(errno) {
        var cwd := -1;
        if cwdOpens {
          cwd := Allocate(cwdFile);
          AfterOne(old(table), cwd, cwdFile);
        }
        if cwd == -1 && !cwdNamed {
          return -1, true;
        }
        dir := FdOpenDirWithDup(fd, -1, grantedAgain, whyAgain);
        var savedErrno := errno;
        if cwd != -1 {
          Close(cwd);
        }
        errno := savedErrno;
      }
    }

    // ---------------------------------------------------------------- dup2 without a system call

    /** dupfd: keep duplicating until the copy lands on the wanted descriptor, which is free, then
        close the others on the way back. */
    method DupUntil(fd: int, desired: int) returns (r: int)
      requires Valid() && fd in table && desired !in table
      modifies this`table, this`errno
      ensures Valid()
      ensures if 0 <= desired < limit then r == desired && table == old(table)[desired := old(table)[fd]]
              else r == -1 && table == old(table) && errno == EMFILE
      decreases FreeBelow(table, limit)
    {
      var duplicated := Dup(fd);
      if duplicated < 0 || duplicated == desired {
        return duplicated;
      }
      UsingOneMore(old(table), limit, duplicated, table[duplicated]);
      r := DupUntil(fd, desired);
      var e := errno;
      Close(duplicated);
      errno := e;
    }

    /** The fallback dup2: it succeeds exactly on an open descriptor and a target within the table. */
    method Dup2(fd: int, desired: int) returns (r: int)
      requires Valid()
      modifies this`table, this`errno
      ensures Valid()
      ensures r == desired && r != -1 <==> fd in old(table) && 0 <= desired < limit
      ensures r == desired || (r == -1 && errno == EBADF)
      ensures table == if fd in old(table) && 0 <= desired < limit then old(table)[desired := old(table)[fd]] else old(table)
    {
      if fd !in table {
        errno := EBADF;
        return -1;
      }
      if fd == desired {
        return fd;
      }
      Close(desired);
      r := DupUntil(fd, desired);
      if r == -1 && (errno == EMFILE || errno == EINVAL) {
        errno := EBADF;
      }
    }

    // ---------------------------------------------------------------- fcntl F_DUPFD

    /** dupfd of lib/fcntl.c: the least free descriptor from newfd on; `handles` says how many
        handles the system still grants, and one is needed for each free descriptor that is too
        small. */
    method FcntlDupFd(oldfd: int, newfd: int, handles: nat) returns (result: int)
      requires Valid() && limit <= OPEN_MAX_MAX
      modifies this`table, this`errno
      ensures Valid()
      ensures result != -1 ==>
                && oldfd in old(table) && 0 <= newfd <= result < limit && result !in old(table)
                && (forall m :: newfd <= m < result ==> m in old(table))
                && table == old(table)[result := old(table)[oldfd]]
      ensures result == -1 ==> table == old(table)
      ensures !(0 <= newfd < limit) ==> result == -1 && errno == EINVAL
      ensures 0 <= newfd < limit && oldfd !in old(table) ==> result == -1 && errno == EBADF
      ensures 0 <= newfd < limit && oldfd in old(table) ==>
                (result == -1 <==> handles <= FreeBelow(old(table), newfd) || forall m :: newfd <= m < limit ==> m in old(table))
                && (result == -1 ==> errno == EMFILE)
    {
      if newfd < 0 || limit <= newfd {
        errno := EINVAL;
        return -1;
      }
      if oldfd !in table {
        errno := EBADF;
        return -1;
      }
      var fdsToClose := new bv8[OPEN_MAX_MAX / CHAR_BIT];
      var bound;
      ghost var temps;
      result, bound, temps := Climb(oldfd, newfd, handles, fdsToClose);
      ghost var file := old(table)[oldfd];
      WithClosed(old(table), temps, file, result);
      CloseAll(fdsToClose, bound, temps);
    }

    /** The climbing loop: duplicates that are too small are kept and remembered. */
    method Climb(oldfd: int, newfd: int, handles: nat, fdsToClose: array<bv8>)
      returns (result: int, bound: nat, ghost temps: set<int>)
      requires Valid() && limit <= OPEN_MAX_MAX && oldfd in table && 0 <= newfd < limit
      requires fdsToClose.Length == OPEN_MAX_MAX / CHAR_BIT
      modifies this`table, this`errno, fdsToClose
      ensures Valid() && bound <= fdsToClose.Length && Records(fdsToClose[..], bound, temps)
      ensures forall t :: t in temps ==> 0 <= t < newfd && t !in old(table)
      ensures result == -1 ==> table == With(old(table), temps, old(table)[oldfd]) && errno == EMFILE
      ensures result == -1 ==> handles <= FreeBelow(old(table), newfd) || forall m :: newfd <= m < limit ==> m in old(table)
      ensures result != -1 ==> handles > FreeBelow(old(table), newfd)
      ensures result != -1 ==>
                && newfd <= result < limit && LowestFree(With(old(table), temps, old(table)[oldfd]), result)
                && table == With(old(table), temps, old(table)[oldfd])[result := old(table)[oldfd]]
    {
      hide Records, FreeBelow;
      ghost var file := table[oldfd];
      temps, bound := {}, 0;
      var left := handles;
      WithNone(table, file);
      RecordsNone(fdsToClose[..]);
      while true
        invariant Valid() && table == With(old(table), temps, file) && oldfd in table && table[oldfd] == file
        invariant bound <= fdsToClose.Length && Records(fdsToClose[..], bound, temps)
        invariant forall t :: t in temps ==> 0 <= t < newfd && t !in old(table)
        invariant handles - left == FreeBelow(old(table), newfd) - FreeBelow(table, newfd)
        decreases FreeBelow(table, limit)
      {
        if left == 0 {
          errno := EMFILE;
          return -1, bound, temps;
        }
        left := left - 1;
        ghost var was := table;
        var duplicated := Allocate(table[oldfd]);
        if duplicated < 0 {
          errno := EMFILE;
          assert forall m :: newfd <= m < limit ==> m in table && m !in temps;
          return -1, bound, temps;
        }
        if newfd <= duplicated {
          NoneFree(was, newfd);
          return duplicated, bound, temps;
        }
        UsingOneMore(was, newfd, duplicated, file);
        UsingOneMore(was, limit, duplicated, file);
        WithOneMore(old(table), temps, file, duplicated);
        bound := Remember(fdsToClose, bound, duplicated, temps);
        temps := temps + {duplicated};
      }
    }

    /** The closing loop: the descriptors recorded in the bit set are closed, no others. */
    method CloseAll(fdsToClose: array<bv8>, bound: nat, ghost temps: set<int>)
      requires Valid() && bound <= fdsToClose.Length && Records(fdsToClose[..], bound, temps)
      modifies this`table, this`errno
      ensures Valid() && table == old(table) - temps && errno == old(errno)
    {
      var savedErrno := errno;
      var d := 0;
      while d < bound * CHAR_BIT
        invariant 0 <= d <= bound * CHAR_BIT && Valid()
        invariant table == old(table) - (set t | t in temps && t < d)
      {
        assert fdsToClose[..][d / CHAR_BIT] == fdsToClose[d / CHAR_BIT];
        if GetBit(fdsToClose[d / CHAR_BIT], d % CHAR_BIT) {
          Close(d);
        }
        assert (set t | t in temps && t < d + 1)
            == (set t | t in temps && t < d) + if d in temps then {d} else {};
        d := d + 1;
      }
      assert (set t | t in temps && t < d) == temps;
      errno := savedErrno;
    }
  }

  /** table with f at the temporary descriptors as well. */
  function With(table: Table, temps: set<int>, f: File): Table {
    map d | d in table.Keys + temps :: if d in temps then f else table[d]
  }

  lemma WithNone(table: Table, f: File)
    ensures With(table, {}, f) == table
  {
  }

  lemma WithOneMore(table: Table, temps: set<int>, f: File, d: int)
    ensures With(table, temps, f)[d := f] == With(table, temps + {d}, f)
  {
  }

  lemma WithClosed(table: Table, temps: set<int>, f: File, d: int)
    requires forall t :: t in temps ==> t !in table
    ensures With(table, temps, f) - temps == table
    ensures d !in temps ==> With(table, temps, f)[d := f] - temps == table[d := f]
  {
    var closed := With(table, temps, f) - temps;
    forall t ensures t in closed <==> t in table {
      assert t in closed <==> t in table.Keys + temps && t !in temps;
    }
    assert closed.Keys == table.Keys;
    assert forall t :: t in table ==> closed[t] == table[t];
    assert d !in temps ==> With(table, temps, f)[d := f] - temps == closed[d := f];
  }

  /** The bit set up to `bound` bytes holds exactly the descriptors of temps. */
  predicate Records(fds: seq<bv8>, bound: nat, temps: set<int>)
    requires bound <= |fds|
  {
    && (forall d: nat :: d < bound * CHAR_BIT ==> (GetBit(fds[d / CHAR_BIT], d % CHAR_BIT) <==> d in temps))
    && (forall d :: d in temps ==> 0 <= d < bound * CHAR_BIT)
  }

  lemma RecordsNone(fds: seq<bv8>)
    ensures Records(fds, 0, {})
  {
  }

  /** Set the bit of a descriptor; bytes that the set did not reach yet are zeroed first. */
  method Remember(fds: array<bv8>, bound0: nat, d: nat, ghost temps: set<int>) returns (bound: nat)
    requires bound0 <= fds.Length == OPEN_MAX_MAX / CHAR_BIT && d < OPEN_MAX_MAX
    requires Records(fds[..], bound0, temps)
    modifies fds
    ensures bound <= fds.Length && Records(fds[..], bound, temps + {d})
  {
    bound := bound0;
    var index := d / CHAR_BIT;
    if bound <= index {
      forall i | bound <= i <= index {
        fds[i] := 0;
      }
      bound := index + 1;
    }
    ghost var zeroed := fds[..];
    fds[index] := SetBit(fds[index], d % CHAR_BIT);
    forall e: nat | e < bound * CHAR_BIT
      ensures GetBit(fds[..][e / CHAR_BIT], e % CHAR_BIT) <==> e in temps + {d}
    {
      if e / CHAR_BIT < bound0 {
        assert GetBit(zeroed[e / CHAR_BIT], e % CHAR_BIT) <==> e in temps;
      } else {
        NoBit(e % CHAR_BIT);
        assert zeroed[e / CHAR_BIT] == 0;
      }
      if e / CHAR_BIT == index {
        SetBitOnly(zeroed[index], d % CHAR_BIT, e % CHAR_BIT);
      }
    }
  }

  // Upper bound on the number of descriptors.
  const OPEN_MAX_MAX: nat := 0x10000
  const CHAR_BIT: nat := 8

  predicate GetBit(b: bv8, j: nat)
    requires j < CHAR_BIT
  {
    (b >> j) & 1 == 1
  }

  function SetBit(b: bv8, j: nat): bv8
    requires j < CHAR_BIT
  {
    b | (1 << j)
  }

  function Mask(j: nat): bv8
    requires j < CHAR_BIT
  {
    if j == 0 then 1 else if j == 1 then 2 else if j == 2 then 4 else if j == 3 then 8
    else if j == 4 then 16 else if j == 5 then 32 else if j == 6 then 64 else 128
  }

  lemma ShiftIsMask(j: nat)
    requires j < CHAR_BIT
    ensures (1 as bv8) << j == Mask(j)
  {
    if j == 0 {} else if j == 1 {} else if j == 2 {} else if j == 3 {}
    else if j == 4 {} else if j == 5 {} else if j == 6 {} else {}
  }

  lemma BitIsMasked(b: bv8, j: nat)
    requires j < CHAR_BIT
    ensures GetBit(b, j) <==> b & Mask(j) != 0
  {
    if j == 0 {} else if j == 1 {} else if j == 2 {} else if j == 3 {}
    else if j == 4 {} else if j == 5 {} else if j == 6 {} else {}
  }

  lemma MaskedOr(b: bv8, x: bv8, y: bv8)
    ensures x & y == 0 ==> (b | x) & y == b & y
    ensures (b | x) & x == x
  {
  }

  lemma NoBit(j: nat)
    requires j < CHAR_BIT
    ensures !GetBit(0, j)
  {
    BitIsMasked(0, j);
  }

  /** Setting a bit sets that bit and leaves the others. */
  lemma SetBitOnly(b: bv8, i: nat, j: nat)
    requires i < CHAR_BIT && j < CHAR_BIT
    ensures GetBit(SetBit(b, i), j) <==> i == j || GetBit(b, j)
  {
    ShiftIsMask(i);
    BitIsMasked(b, j);
    BitIsMasked(SetBit(b, i), j);
    MaskedOr(b, Mask(i), Mask(j));
  }

  /** fdopendir on the only open descriptor, where the first attempt fails with `why` and the second
      would be granted, with the working directory known by name: the second is made exactly after
      one of the six errors. */
  method OpenAfter(why: Errno) returns (dir: int, table: Table)
    ensures why == ENOTDIR || why == ENOENT || why == EPERM || why == EACCES || why == ENOSYS || why == EOPNOTSUPP ==>
              dir == 0 && table == map[0 := StreamOn(Open(7))]
    ensures why == NoError || why == EBADF || why == EMFILE || why == EINVAL || why.Other? ==>
              dir == -1 && table == map[0 := Open(7)]
  {
    var process := new Process(3);
    assert 0 !in process.table;
    var fd := process.Allocate(Open(7));
    assert fd == 0 && 1 !in process.table;
    var exited;
    dir, exited := process.FdOpenDir(fd, false, why, Open(8), false, true, true, NoError);
    table := process.table;
  }
}
