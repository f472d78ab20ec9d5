/**
 Open files and descriptor tables: reference counts across open, dup, close, pipe,
 fork and exit (kernel/fs/fs.c, kernel/syscall.c, kernel/proc.c, kernel/pipe.c).
 */
module Descriptors {
  import opened Wrappers

  const CONSOLE: nat := 2   // files 0 and 1 are the console's, and are never freed

  datatype End = ReadEnd | WriteEnd

  /** An open file; `pipe` says which end of which pipe it is, if any. */
  datatype File = Unused | File(refs: int, pipe: Option<(nat, End)>)

  datatype Pipe = Pipe(readFile: Option<nat>, writeFile: Option<nat>)

  type Table = seq<Option<nat>>

  // ----- Counting descriptors -----

  /** How many of the first `n` descriptors of a table refer to file `x`. */
  function CountIn(t: Table, x: nat, n: nat): (c: nat)
    requires n <= |t|
  {
    if n == 0 then 0 else CountIn(t, x, n - 1) + (if t[n - 1] == Some(x) then 1 else 0)
  }

  /** How many descriptors of the first `n` processes refer to file `x`. */
  function Uses(procs: seq<Table>, x: nat, n: nat): (c: nat)
    requires n <= |procs|
  {
    if n == 0 then 0 else Uses(procs, x, n - 1) + CountIn(procs[n - 1], x, |procs[n - 1]|)
  }

  lemma {:induction false} CountUpdate(t: Table, x: nat, k: nat, e: Option<nat>, n: nat)
    requires k < |t| && n <= |t|
    ensures CountIn(t[k := e], x, n) ==
            CountIn(t, x, n) + if k < n then (if e == Some(x) then 1 else 0) - (if t[k] == Some(x) then 1 else 0) else 0
    decreases n
  {
    if n > 0 { CountUpdate(t, x, k, e, n - 1); }
  }

  lemma {:induction false} UsesUpdate(procs: seq<Table>, x: nat, p: nat, t: Table, n: nat)
    requires p < |procs| && n <= |procs|
    ensures Uses(procs[p := t], x, n) ==
            Uses(procs, x, n) + if p < n then CountIn(t, x, |t|) - CountIn(procs[p], x, |procs[p]|) else 0
    decreases n
  {
    if n > 0 { UsesUpdate(procs, x, p, t, n - 1); }
  }

  function SetFd(procs: seq<Table>, p: nat, fd: nat, e: Option<nat>): (procs': seq<Table>)
    requires p < |procs| && fd < |procs[p]|
  {
    procs[p := procs[p][fd := e]]
  }

  /** Changing one descriptor changes the counts of the file it named and the file it names. */
  lemma SetFdUses(procs: seq<Table>, p: nat, fd: nat, e: Option<nat>, x: nat)
    requires p < |procs| && fd < |procs[p]|
    ensures Uses(SetFd(procs, p, fd, e), x, |procs|) ==
            Uses(procs, x, |procs|) + (if e == Some(x) then 1 else 0) - (if procs[p][fd] == Some(x) then 1 else 0)
  {
    CountUpdate(procs[p], x, fd, e, |procs[p]|);
    UsesUpdate(procs, x, p, procs[p][fd := e], |procs|);
  }

  lemma {:induction false} UsedCount(t: Table, x: nat, k: nat, n: nat)
    requires k < n <= |t| && t[k] == Some(x)
    ensures CountIn(t, x, n) > 0
    decreases n
  {
    if k < n - 1 { UsedCount(t, x, k, n - 1); }
  }

  lemma {:induction false} UsedSomewhere(procs: seq<Table>, x: nat, p: nat, fd: nat, n: nat)
    requires p < n <= |procs| && fd < |procs[p]| && procs[p][fd] == Some(x)
    ensures Uses(procs, x, n) > 0
    decreases n
  {
    if p < n - 1 { UsedSomewhere(procs, x, p, fd, n - 1); } else { UsedCount(procs[p], x, fd, |procs[p]|); }
  }

  lemma {:induction false} FindUse(procs: seq<Table>, x: nat, n: nat) returns (p: nat, fd: nat)
    requires n <= |procs| && Uses(procs, x, n) > 0
    ensures p < |procs| && fd < |procs[p]| && procs[p][fd] == Some(x)
    decreases n
  {
    if CountIn(procs[n - 1], x, |procs[n - 1]|) > 0 {
      p := n - 1;
      fd := FindIn(procs[p], x, |procs[p]|);
    } else {
      p, fd := FindUse(procs, x, n - 1);
    }
  }

  lemma {:induction false} FindIn(t: Table, x: nat, n: nat) returns (fd: nat)
    requires n <= |t| && CountIn(t, x, n) > 0
    ensures fd < |t| && t[fd] == Some(x)
    decreases n
  {
    if t[n - 1] == Some(x) { fd := n - 1; } else { fd := FindIn(t, x, n - 1); }
  }

  /** Every open file has one reference more for each of the first `n` descriptors that name it. */
  ghost predicate MoreRefs(files0: seq<File>, t: Table, n: nat, files1: seq<File>)
    requires n <= |t|
  {
    && |files1| == |files0|
    && forall x {:trigger files1[x]} :: 0 <= x < |files0| ==>
         files1[x] == if files0[x].Unused? then Unused else files0[x].(refs := files0[x].refs + CountIn(t, x, n))
  }

  /** File `x` has one reference more. */
  ghost predicate OneMore(files0: seq<File>, x: nat, files1: seq<File>) {
    x < |files0| && files0[x].File? && files1 == files0[x := files0[x].(refs := files0[x].refs + 1)]
  }

  lemma MoreRefsStep(files0: seq<File>, t: Table, i: nat, files1: seq<File>, files2: seq<File>)
    requires i < |t| && MoreRefs(files0, t, i, files1)
    requires if t[i].Some? then OneMore(files1, t[i].value, files2) else files2 == files1
    ensures MoreRefs(files0, t, i + 1, files2)
  {
  }

  // ----- What holds between system calls -----

  /**
   Every file but the console's has as many references as descriptors name it, and exists as long as there are
   any.
   */
  ghost predicate RefsOk(files: seq<File>, procs: seq<Table>) {
    forall x {:trigger files[x]} :: CONSOLE <= x < |files| ==>
      if files[x].Unused? then Uses(procs, x, |procs|) == 0 else files[x].refs == Uses(procs, x, |procs|) > 0
  }

  ghost predicate TablesOk(files: seq<File>, procs: seq<Table>) {
    forall p, fd {:trigger procs[p][fd]} :: 0 <= p < |procs| && 0 <= fd < |procs[p]| && procs[p][fd].Some? ==>
      procs[p][fd].value < |files|
  }

  function EndOf(p: Pipe, e: End): (x: Option<nat>) { if e == ReadEnd then p.readFile else p.writeFile }

  /** A pipe end that is open is a file that is open, and the other way round. */
  ghost predicate PipesOk(files: seq<File>, pipes: seq<Pipe>) {
    && (forall q, e {:trigger EndOf(pipes[q], e)} :: 0 <= q < |pipes| && EndOf(pipes[q], e).Some? ==>
          var x := EndOf(pipes[q], e).value; CONSOLE <= x < |files| && files[x].File? && files[x].pipe == Some((q, e)))
    && (forall x {:trigger files[x]} :: 0 <= x < |files| && files[x].File? && files[x].pipe.Some? ==>
          var (q, e) := files[x].pipe.value; 0 <= q < |pipes| && EndOf(pipes[q], e) == Some(x))
  }

  ghost predicate Inv(files: seq<File>, procs: seq<Table>, pipes: seq<Pipe>) {
    && |files| >= CONSOLE && files[0].File? && files[1].File? && files[0].pipe.None? && files[1].pipe.None?
    && RefsOk(files, procs) && TablesOk(files, procs) && PipesOk(files, pipes)
  }

  /** End `e` of pipe `q` is closed; the other end and all other pipes are as they were. */
  ghost predicate EndClosed(pipes0: seq<Pipe>, q: nat, e: End, pipes1: seq<Pipe>) {
    && q < |pipes0| == |pipes1| && EndOf(pipes1[q], e).None? && pipes1 == pipes0[q := pipes1[q]]
    && forall e' :: e' != e ==> EndOf(pipes1[q], e') == EndOf(pipes0[q], e')
  }

  /** Descriptor `fd` of process `p` refers to end `e` of pipe `q`. */
  ghost predicate HoldsEnd(files: seq<File>, procs: seq<Table>, p: int, fd: int, q: nat, e: End) {
    && 0 <= p < |procs| && 0 <= fd < |procs[p]| && procs[p][fd].Some? && procs[p][fd].value < |files|
    && var f := files[procs[p][fd].value]; f.File? && f.pipe == Some((q, e))
  }

  lemma PipeEndUsed(files: seq<File>, procs: seq<Table>, pipes: seq<Pipe>, q: nat, e: End) returns (p: nat, fd: nat)
    requires Inv(files, procs, pipes) && q < |pipes| && EndOf(pipes[q], e).Some?
    ensures p < |procs| && fd < |procs[p]| && procs[p][fd] == EndOf(pipes[q], e) && HoldsEnd(files, procs, p, fd, q, e)
  {
    var x := EndOf(pipes[q], e).value;
    p, fd := FindUse(procs, x, |procs|);
  }

  /** An end of a pipe is open if and only if some descriptor of some process refers to it. */
  lemma PipeEndOpen(files: seq<File>, procs: seq<Table>, pipes: seq<Pipe>, q: nat, e: End)
    requires Inv(files, procs, pipes) && q < |pipes|
    ensures EndOf(pipes[q], e).Some? <==> exists p, fd :: HoldsEnd(files, procs, p, fd, q, e)
  {
    if EndOf(pipes[q], e).Some? {
      var p, fd := PipeEndUsed(files, procs, pipes, q, e);
      assert HoldsEnd(files, procs, p, fd, q, e);
    }
  }

  // ----- One more and one less reference -----

  function Retain(f: File): (f': File)
    requires f.File?
  {
    f.(refs := f.refs + 1)
  }

  lemma RetainKeeps(files: seq<File>, procs: seq<Table>, pipes: seq<Pipe>, p: nat, fd: nat, x: nat)
    requires Inv(files, procs, pipes) && p < |procs| && fd < |procs[p]| && procs[p][fd].None? && x < |files|
    requires files[x].File?
    ensures Inv(files[x := Retain(files[x])], SetFd(procs, p, fd, Some(x)), pipes)
  {
    var files', procs' := files[x := Retain(files[x])], SetFd(procs, p, fd, Some(x));
    forall y | CONSOLE <= y < |files'|
      ensures if files'[y].Unused? then Uses(procs', y, |procs'|) == 0
              else files'[y].refs == Uses(procs', y, |procs'|) > 0
    {
      SetFdUses(procs, p, fd, Some(x), y);
      assert files[y].Unused? || files[y].refs == Uses(procs, y, |procs|);
    }
  }

  /** A new file with one descriptor. */
  lemma OpenKeeps(files: seq<File>, procs: seq<Table>, pipes: seq<Pipe>, p: nat, fd: nat, x: nat)
    requires Inv(files, procs, pipes) && p < |procs| && fd < |procs[p]| && procs[p][fd].None?
    requires CONSOLE <= x < |files| && files[x].Unused?
    ensures Inv(files[x := File(1, None)], SetFd(procs, p, fd, Some(x)), pipes)
  {
    var files', procs' := files[x := File(1, None)], SetFd(procs, p, fd, Some(x));
    forall y | CONSOLE <= y < |files'|
      ensures if files'[y].Unused? then Uses(procs', y, |procs'|) == 0
              else files'[y].refs == Uses(procs', y, |procs'|) > 0
    {
      SetFdUses(procs, p, fd, Some(x), y);
      assert files[y].Unused? || files[y].refs == Uses(procs, y, |procs|);
    }
  }

  /** The file after one reference has been dropped. */
  function Drop(files: seq<File>, x: nat): (f: File)
    requires x < |files| && files[x].File?
  {
    if files[x].refs - 1 > 0 || x < CONSOLE then files[x].(refs := files[x].refs - 1) else Unused
  }

  /** The pipes after the close hook of file `f` has run. */
  function ClosePipe(pipes: seq<Pipe>, f: File): (pipes': seq<Pipe>)
    requires f.File? && (f.pipe.Some? ==> f.pipe.value.0 < |pipes|)
  {
    if f.pipe.None? then pipes
    else
      var (q, e) := f.pipe.value;
      pipes[q := if e == ReadEnd then pipes[q].(readFile := None) else pipes[q].(writeFile := None)]
  }

  function PipesAfter(files: seq<File>, pipes: seq<Pipe>, x: nat): (pipes': seq<Pipe>)
    requires x < |files| && files[x].File? && (files[x].pipe.Some? ==> files[x].pipe.value.0 < |pipes|)
  {
    if Drop(files, x).Unused? then ClosePipe(pipes, files[x]) else pipes
  }

  lemma DropRefs(files: seq<File>, procs: seq<Table>, p: nat, fd: nat, x: nat)
    requires RefsOk(files, procs) && p < |procs| && fd < |procs[p]| && procs[p][fd] == Some(x) && x < |files|
    requires files[x].File?
    ensures RefsOk(files[x := Drop(files, x)], SetFd(procs, p, fd, None))
  {
    var files', procs' := files[x := Drop(files, x)], SetFd(procs, p, fd, None);
    forall y | CONSOLE <= y < |files'|
      ensures if files'[y].Unused? then Uses(procs', y, |procs'|) == 0
              else files'[y].refs == Uses(procs', y, |procs'|) > 0
    {
      SetFdUses(procs, p, fd, None, y);
      assert files[y].Unused? || files[y].refs == Uses(procs, y, |procs|);
    }
  }

  lemma DropKeeps(files: seq<File>, procs: seq<Table>, pipes: seq<Pipe>, p: nat, fd: nat, x: nat)
    requires Inv(files, procs, pipes) && p < |procs| && fd < |procs[p]| && procs[p][fd] == Some(x)
    ensures x < |files| && files[x].File? && (files[x].pipe.Some? ==> files[x].pipe.value.0 < |pipes|)
    ensures Inv(files[x := Drop(files, x)], SetFd(procs, p, fd, None), PipesAfter(files, pipes, x))
  {
    UsedSomewhere(procs, x, p, fd, |procs|);
    assert x < |files| && files[x].File?;
    DropRefs(files, procs, p, fd, x);
    var files', pipes' := files[x := Drop(files, x)], PipesAfter(files, pipes, x);
    assert PipesOk(files', pipes');
  }

  /** Two new files become the ends of a new pipe. */
  lemma AttachKeeps(files: seq<File>, procs: seq<Table>, pipes: seq<Pipe>, x: nat, y: nat)
    requires Inv(files, procs, pipes) && CONSOLE <= x < |files| && CONSOLE <= y < |files| && x != y
    requires files[x].File? && files[y].File? && files[x].pipe.None? && files[y].pipe.None?
    ensures var q := |pipes|;
            Inv(files[x := files[x].(pipe := Some((q, ReadEnd)))][y := files[y].(pipe := Some((q, WriteEnd)))],
                procs, pipes + [Pipe(Some(x), Some(y))])
  {
  }

  /** The lowest free descriptor from `from` on; -1 if there is none. */
  ghost predicate Lowest(t: Table, from: nat, fd: int) {
    && (fd == -1 ==> forall i :: from <= i < |t| ==> t[i].Some?)
    && (fd != -1 ==> from <= fd < |t| && t[fd].None? && forall i :: from <= i < fd ==> t[i].Some?)
  }

  ghost predicate PipeFiles(files: seq<File>, x: nat, y: nat) {
    CONSOLE <= x < |files| && CONSOLE <= y < |files| && x != y && files[x].Unused? && files[y].Unused?
  }

  ghost predicate TwoFiles(files: seq<File>) {
    exists x: nat, y: nat :: PipeFiles(files, x, y)
  }

  ghost predicate TwoFds(t: Table) {
    exists a, b :: 0 <= a < |t| && 0 <= b < |t| && a != b && t[a].None? && t[b].None?
  }

  /** The files once `x` and `y` are the ends of pipe `q`. */
  function WithPipe(files: seq<File>, x: nat, y: nat, q: nat): (files': seq<File>)
    requires x < |files| && y < |files|
  {
    files[x := File(1, Some((q, ReadEnd)))][y := File(1, Some((q, WriteEnd)))]
  }

  lemma SecondLowest(t: Table, a: nat, x: nat, b: int)
    requires Lowest(t, 0, a) && Lowest(t[a := Some(x)], 0, b)
    ensures b == -1 <==> !TwoFds(t)
    ensures b != -1 ==> Lowest(t, a + 1, b)
  {
    var t' := t[a := Some(x)];
    if b != -1 {
      assert t[b] == t'[b] && t[a].None?;
      forall i | a + 1 <= i < b
        ensures t[i].Some?
      {
        assert t'[i] == t[i];
      }
    } else {
      forall i | 0 <= i < |t| && i != a
        ensures t[i].Some?
      {
        assert t'[i] == t[i];
      }
    }
  }

  /** A new pipe with a descriptor for each end. */
  lemma PipeKeeps(files: seq<File>, procs: seq<Table>, pipes: seq<Pipe>, p: nat, a: nat, b: nat, x: nat, y: nat)
    requires Inv(files, procs, pipes) && p < |procs| && a < |procs[p]| && b < |procs[p]| && a != b
    requires procs[p][a].None? && procs[p][b].None? && CONSOLE <= x < |files| && CONSOLE <= y < |files| && x != y
    requires files[x].Unused? && files[y].Unused?
    ensures Inv(WithPipe(files, x, y, |pipes|),
                SetFd(SetFd(procs, p, a, Some(x)), p, b, Some(y)), pipes + [Pipe(Some(x), Some(y))])
  {
    var files1, procs1 := files[x := File(1, None)], SetFd(procs, p, a, Some(x));
    OpenKeeps(files, procs, pipes, p, a, x);
    var files2, procs2 := files1[y := File(1, None)], SetFd(procs1, p, b, Some(y));
    OpenKeeps(files1, procs1, pipes, p, b, y);
    AttachKeeps(files2, procs2, pipes, x, y);
    var q := |pipes|;
    assert files2[x := files2[x].(pipe := Some((q, ReadEnd)))][y := files2[y].(pipe := Some((q, WriteEnd)))]
        == files[x := File(1, Some((q, ReadEnd)))][y := File(1, Some((q, WriteEnd)))];
  }

  /** A file without a descriptor breaks the count. */
  lemma LeakBreaks(files: seq<File>, procs: seq<Table>, pipes: seq<Pipe>, files': seq<File>, x: nat)
    requires Inv(files, procs, pipes) && CONSOLE <= x < |files| == |files'| && files[x].Unused? && files'[x].File?
    ensures !RefsOk(files', procs)
  {
  }

  /** One free descriptor and two unused files: a state in which making a pipe loses both files. */
  lemma PipeCanLeak()
    ensures var files, procs := [File(1, None), File(1, None), Unused, Unused], [[Some(0), Some(1), None]];
            Inv(files, procs, []) && TwoFiles(files) && !TwoFds(procs[0])
  {
    var files: seq<File> := [File(1, None), File(1, None), Unused, Unused];
    var procs: seq<Table> := [[Some(0), Some(1), None]];
    assert PipeFiles(files, 2, 3);
    forall x | CONSOLE <= x < |files|
      ensures Uses(procs, x, |procs|) == 0
    {
      if Uses(procs, x, |procs|) > 0 {
        var p, fd := FindUse(procs, x, |procs|);
      }
    }
  }

  datatype Result = Fd(fd: nat) | Invalid | NoMemory

  class DescriptorTables {
    var files: seq<File>
    var procs: seq<Table>
    var pipes: seq<Pipe>

    ghost predicate Valid()
      reads this
    {
      Inv(files, procs, pipes)
    }

    /** Process 0 with the console on descriptors 0 and 1, and nothing else open. */
    constructor (maxFiles: nat, maxProcs: nat, maxFds: nat)
      requires maxProcs > 0 && maxFds >= 2
      ensures Valid() && |procs| == maxProcs && pipes == []
      ensures |files| == CONSOLE + maxFiles && files[0] == files[1] == File(1, None)
      ensures forall x :: CONSOLE <= x < |files| ==> files[x].Unused?
      ensures forall p :: 0 <= p < maxProcs ==> |procs[p]| == maxFds
      ensures procs[0][0] == Some(0) && procs[0][1] == Some(1)
      ensures forall p, fd :: 0 <= p < maxProcs && 0 <= fd < maxFds && (p > 0 || fd > 1) ==> procs[p][fd].None?
    {
      files := [File(1, None), File(1, None)] + seq(maxFiles, _ => Unused);
      var empty: Table := seq(maxFds, _ => None);
      procs := seq(maxProcs, _ => empty)[0 := empty[0 := Some(0)][1 := Some(1)]];
      pipes := [];
      new;
      forall x | CONSOLE <= x < |files|
        ensures Uses(procs, x, |procs|) == 0
      {
        if Uses(procs, x, |procs|) > 0 {
          var p, fd := FindUse(procs, x, |procs|);
        }
      }
    }

    method FindLowestNullFd(p: nat, from: nat) returns (fd: int)
      requires p < |procs|
      ensures Lowest(procs[p], from, fd)
    {
      var i := from;
      while i < |procs[p]|
        invariant from <= i && forall j :: from <= j < i && j < |procs[p]| ==> procs[p][j].Some?
      {
        if procs[p][i].None? { return i; }
        i := i + 1;
      }
      return -1;
    }

    /** A file structure that is not in use, other than `not`. */
    method AllocFile(not: nat) returns (x: Option<nat>)
      requires |files| >= CONSOLE
      ensures x.Some? ==> CONSOLE <= x.value < |files| && files[x.value].Unused? && x.value != not
      ensures x.None? ==> forall y :: CONSOLE <= y < |files| && y != not ==> files[y].File?
    {
      var i := CONSOLE;
      while i < |files|
        invariant CONSOLE <= i <= |files| && forall y :: CONSOLE <= y < i && y != not ==> files[y].File?
      {
        if files[i].Unused? && i != not { return Some(i); }
        i := i + 1;
      }
      return None;
    }

    /** Open a file; `found` says whether the path leads to one. */
    method Open(p: nat, found: bool) returns (r: Result)
      requires Valid() && p < |procs|
      modifies `files, `procs
      ensures Valid() && |procs| == |old(procs)|
      ensures r.Fd? <==> found && (exists fd :: 2 <= fd < |old(procs)[p]| && old(procs)[p][fd].None?)
                         && exists x :: CONSOLE <= x < |old(files)| && old(files)[x].Unused?
      ensures r.Invalid? <==> !found && exists fd :: 2 <= fd < |old(procs)[p]| && old(procs)[p][fd].None?
      ensures !r.Fd? ==> files == old(files) && procs == old(procs)
      ensures r.Fd? ==> Lowest(old(procs)[p], 2, r.fd) && exists x ::
                CONSOLE <= x < |old(files)| && old(files)[x].Unused?
                && files == old(files)[x := File(1, None)] && procs == SetFd(old(procs), p, r.fd, Some(x))
    {
      var fd := FindLowestNullFd(p, 2);
      if fd == -1 { return NoMemory; }
      if !found { return Invalid; }
      var x := AllocFile(0);
      if x.None? { return NoMemory; }
      OpenKeeps(files, procs, pipes, p, fd, x.value);
      files := files[x.value := File(1, None)];
      procs := SetFd(procs, p, fd, Some(x.value));
      return Fd(fd);
    }

    method Dup(p: nat, fd: int) returns (r: Result)
      requires Valid() && p < |procs|
      modifies `files, `procs
      ensures Valid() && |procs| == |old(procs)|
      ensures r.Invalid? <==> fd < 0 || fd >= |old(procs)[p]| || old(procs)[p][fd].None?
      ensures r.NoMemory? ==> forall i :: 0 <= i < |procs[p]| ==> procs[p][i].Some?
      ensures !r.Fd? ==> files == old(files) && procs == old(procs)
      ensures r.Fd? ==> Lowest(old(procs)[p], 0, r.fd) && procs == SetFd(old(procs), p, r.fd, old(procs)[p][fd])
      ensures r.Fd? ==> var x := old(procs)[p][fd].value;
                        OneMore(old(files), x, files)
    {
      if fd < 0 || fd >= |procs[p]| || procs[p][fd].None? { return Invalid; }
      var x := procs[p][fd].value;
      var n := FindLowestNullFd(p, 0);
      if n < 0 { return NoMemory; }
      InUse(p, fd);
      RetainKeeps(files, procs, pipes, p, n, x);
      procs := SetFd(procs, p, n, Some(x));
      files := files[x := Retain(files[x])];
      return Fd(n);
    }

    /** What a descriptor names is an open file. */
    lemma InUse(p: nat, fd: nat)
      requires Valid() && p < |procs| && fd < |procs[p]| && procs[p][fd].Some?
      ensures procs[p][fd].value < |files| && files[procs[p][fd].value].File?
    {
      UsedSomewhere(procs, procs[p][fd].value, p, fd, |procs|);
      assert procs[p][fd].value < |files|;
    }

    /** Close a descriptor; the last one closes the file, and the end of the pipe if it is one. */
    method Close(p: nat, fd: int) returns (ok: bool)
      requires Valid() && p < |procs|
      modifies this
      ensures Valid() && ok == (0 <= fd < |old(procs)[p]| && old(procs)[p][fd].Some?)
      ensures !ok ==> files == old(files) && procs == old(procs) && pipes == old(pipes)
      ensures ok ==> procs == SetFd(old(procs), p, fd, None)
      ensures ok ==> var x := old(procs)[p][fd].value;
                     && x < |old(files)| == |files| && old(files)[x].File? && files == old(files)[x := files[x]]
                     && (files[x].Unused? <==> x >= CONSOLE && Uses(procs, x, |procs|) == 0)
                     && (files[x].File? ==> files[x] == old(files)[x].(refs := old(files)[x].refs - 1))
                     && (files[x].File? || old(files)[x].pipe.None? ==> pipes == old(pipes))
                     && (files[x].Unused? && old(files)[x].pipe.Some? ==>
                           EndClosed(old(pipes), old(files)[x].pipe.value.0, old(files)[x].pipe.value.1, pipes))
    {
      if fd < 0 || fd >= |procs[p]| || procs[p][fd].None? { return false; }
      var x := procs[p][fd].value;
      DropKeeps(files, procs, pipes, p, fd, x);
      var f := Drop(files, x);
      if f.Unused? { pipes := ClosePipe(pipes, files[x]); }
      files := files[x := f];
      procs := SetFd(procs, p, fd, None);
      return true;
    }

    /** Give the child, which has no descriptors, those of the parent. */
    method Fork(parent: nat, child: nat)
      requires Valid() && parent < |procs| && child < |procs| && parent != child && |procs[parent]| == |procs[child]|
      requires forall i :: 0 <= i < |procs[child]| ==> procs[child][i].None?
      modifies `files, `procs
      ensures Valid() && procs == old(procs)[child := old(procs)[parent]]
      ensures MoreRefs(old(files), old(procs)[parent], |old(procs)[parent]|, files)
    {
      var i := 0;
      while i < |procs[parent]|
        invariant 0 <= i <= |old(procs)[parent]| && Valid() && |procs| == |old(procs)|
        invariant forall q :: 0 <= q < |procs| && q != child ==> procs[q] == old(procs)[q]
        invariant MoreRefs(old(files), old(procs)[parent], i, files)
        invariant |procs[child]| == |old(procs)[child]|
        invariant forall j :: 0 <= j < |procs[child]| ==>
                    procs[child][j] == if j < i then old(procs)[parent][j] else None
      {
        ghost var files1 := files;
        if procs[parent][i].Some? { Share(parent, child, i); }
        MoreRefsStep(old(files), old(procs)[parent], i, files1, files);
        i := i + 1;
      }
      assert procs[child] == old(procs)[parent];
    }

    /** Let descriptor `i` of the child refer to the file that it refers to in the parent. */
    method Share(parent: nat, child: nat, i: nat)
      requires Valid() && parent < |procs| && child < |procs| && parent != child && i < |procs[parent]|
      requires i < |procs[child]| && procs[parent][i].Some? && procs[child][i].None?
      modifies `files, `procs
      ensures Valid() && procs == SetFd(old(procs), child, i, old(procs)[parent][i])
      ensures OneMore(old(files), procs[parent][i].value, files)
    {
      var x := procs[parent][i].value;
      InUse(parent, i);
      RetainKeeps(files, procs, pipes, child, i, x);
      procs := SetFd(procs, child, i, Some(x));
      files := files[x := Retain(files[x])];
    }

    /**
     Make a pipe on the two lowest free descriptors.  When there are not two, the files
     that were made for its ends are not given back: `leaked` names them.
     */
    method MakePipe(p: nat) returns (r: Option<(nat, nat)>, ghost leaked: seq<nat>)
      requires Valid() && p < |procs|
      modifies this
      ensures |procs| == |old(procs)| && (Valid() <==> leaked == [])
      ensures r.Some? <==> TwoFiles(old(files)) && TwoFds(old(procs)[p])
      ensures r.Some? ==>
                && Lowest(old(procs)[p], 0, r.value.0) && Lowest(old(procs)[p], r.value.0 + 1, r.value.1)
                && leaked == [] && |pipes| == |old(pipes)| + 1 && pipes[..|old(pipes)|] == old(pipes)
                && var q := pipes[|old(pipes)|];
                && q.readFile.Some? && q.writeFile.Some? && PipeFiles(old(files), q.readFile.value, q.writeFile.value)
                && files == WithPipe(old(files), q.readFile.value, q.writeFile.value, |old(pipes)|)
                && procs == SetFd(SetFd(old(procs), p, r.value.0, q.readFile), p, r.value.1, q.writeFile)
      ensures r.None? ==> procs == old(procs) && pipes == old(pipes) && (leaked == [] ==> files == old(files))
      ensures leaked != [] <==> TwoFiles(old(files)) && !TwoFds(old(procs)[p])
      ensures leaked != [] ==> |leaked| == 2 && PipeFiles(old(files), leaked[0], leaked[1])
                               && files == WithPipe(old(files), leaked[0], leaked[1], |pipes|)
    {
      var x := AllocFile(0);
      if x.None? { return None, []; }
      var y := AllocFile(x.value);
      if y.None? { return None, []; }
      assert PipeFiles(files, x.value, y.value);
      var q := |pipes|;
      files := WithPipe(files, x.value, y.value, q);
      pipes := pipes + [Pipe(Some(x.value), Some(y.value))];
      r := AssignFds(p, x.value, y.value);
      if r.None? {
        LeakBreaks(old(files), old(procs), old(pipes), files, x.value);
        pipes := pipes[..q];
        return None, [x.value, y.value];
      }
      PipeKeeps(old(files), old(procs), old(pipes), p, r.value.0, r.value.1, x.value, y.value);
      leaked := [];
    }

    /** Let the two lowest free descriptors refer to `x` and `y`, or neither. */
    method AssignFds(p: nat, x: nat, y: nat) returns (r: Option<(nat, nat)>)
      requires p < |procs|
      modifies `procs
      ensures r.None? ==> procs == old(procs) && !TwoFds(procs[p])
      ensures r.Some? ==>
                && TwoFds(old(procs)[p]) && Lowest(old(procs)[p], 0, r.value.0)
                && Lowest(old(procs)[p], r.value.0 + 1, r.value.1)
                && procs == SetFd(SetFd(old(procs), p, r.value.0, Some(x)), p, r.value.1, Some(y))
    {
      ghost var t := procs[p];
      var a := FindLowestNullFd(p, 0);
      if a < 0 { return None; }
      procs := SetFd(procs, p, a, Some(x));
      var b := FindLowestNullFd(p, 0);
      SecondLowest(t, a, x, b);
      if b < 0 {
        procs := SetFd(procs, p, a, None);
        assert procs[p] == t;
        return None;
      }
      procs := SetFd(procs, p, b, Some(y));
      return Some((a, b));
    }

    /** Close everything that a process has open. */
    method CloseAll(p: nat)
      requires Valid() && p < |procs|
      modifies this
      ensures Valid() && |files| == |old(files)| && |pipes| == |old(pipes)|
      ensures |procs| == |old(procs)| && forall q :: 0 <= q < |procs| && q != p ==> procs[q] == old(procs)[q]
      ensures |procs[p]| == |old(procs)[p]| && forall i :: 0 <= i < |procs[p]| ==> procs[p][i].None?
    {
      var i := 0;
      while i < |procs[p]|
        invariant |procs| == |old(procs)| && 0 <= i <= |old(procs)[p]| == |procs[p]| && Valid()
        invariant |files| == |old(files)| && |pipes| == |old(pipes)|
        invariant forall q :: 0 <= q < |procs| && q != p ==> procs[q] == old(procs)[q]
        invariant forall j :: 0 <= j < i ==> procs[p][j].None?
      {
        if procs[p][i].Some? {
          var ok := Close(p, i);
        }
        i := i + 1;
      }
    }
  }
}
