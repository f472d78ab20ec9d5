/**
 Directories and link counts of kernel/fs/sfs/sfs.c: entries in slots, searched from
 the front, and a link count per inode.
 */
module Directory {
  import opened Wrappers

  const NAMELEN: nat := 28
  const MAX_SLOTS: nat := 4288

  /** A slot of a directory; inode number 0 marks it free. */
  datatype Entry = Entry(inum: nat, name: string)

  type Slots = seq<Entry>

  /** What is stored of a name: it is cut to leave room for the final null. */
  function Cut(name: string): (s: string)
    ensures s <= name && |s| < NAMELEN && (s == name || |s| + 1 == NAMELEN)
  {
    if |name| < NAMELEN then name else name[..NAMELEN - 1]
  }

  predicate Live(e: Entry) { e.inum > 0 }

  /** The first live slot with the given name, from slot `i` on; the length of the directory if there is none. */
  function FirstFrom(d: Slots, name: string, i: nat): (k: nat)
    requires i <= |d|
    ensures i <= k <= |d|
    ensures k < |d| ==> Live(d[k]) && d[k].name == name
    ensures forall j :: i <= j < k ==> !(Live(d[j]) && d[j].name == name)
    decreases |d| - i
  {
    if i == |d| then i
    else if Live(d[i]) && d[i].name == name then i else FirstFrom(d, name, i + 1)
  }

  /** The inode that a name refers to; 0 for none. */
  function Find(d: Slots, name: string): (x: nat) {
    var k := FirstFrom(d, name, 0);
    if k < |d| then d[k].inum else 0
  }

  lemma FindNone(d: Slots, name: string)
    ensures Find(d, name) == 0 <==> forall j :: 0 <= j < |d| ==> !(Live(d[j]) && d[j].name == name)
  {
  }

  /** No two live entries have the same name. */
  ghost predicate Unique(d: Slots) {
    forall i, j :: 0 <= i < j < |d| && Live(d[i]) && Live(d[j]) ==> d[i].name != d[j].name
  }

  /** In a directory without duplicates a name refers to the one entry that has it. */
  lemma FindUnique(d: Slots, name: string, k: nat)
    requires Unique(d) && k < |d| && Live(d[k]) && d[k].name == name
    ensures Find(d, name) == d[k].inum && FirstFrom(d, name, 0) == k
  {
  }

  // ----- Adding an entry -----

  /** The directory after `e` has been put in slot `k`, which is free or just past the end. */
  function Put(d: Slots, k: nat, e: Entry): (d': Slots)
    requires k <= |d|
  {
    if k < |d| then d[k := e] else d + [e]
  }

  ghost predicate FreeSlot(d: Slots, k: nat) {
    k <= |d| && (k < |d| ==> !Live(d[k])) && forall j :: 0 <= j < k ==> Live(d[j])
  }

  /** A new entry is found under the name that is stored, and changes what no other name refers to. */
  lemma PutFind(d: Slots, k: nat, e: Entry, name: string)
    requires FreeSlot(d, k) && Live(e) && Find(d, e.name) == 0
    ensures Find(Put(d, k, e), name) == if name == e.name then e.inum else Find(d, name)
  {
    var d' := Put(d, k, e);
    FindNone(d, e.name);
    var f, f' := FirstFrom(d, name, 0), FirstFrom(d', name, 0);
    if name == e.name {
      assert d'[k] == e;
      assert f' == k;
    } else {
      assert f < |d| ==> d'[f] == d[f];
      assert f' < |d'| ==> f' != k;
    }
  }

  /** Adding a name keeps the names unique exactly when what is stored of it is not there yet. */
  lemma PutUnique(d: Slots, k: nat, e: Entry)
    requires FreeSlot(d, k) && Live(e) && Unique(d)
    ensures Unique(Put(d, k, e)) <==> Find(d, e.name) == 0
  {
    var d' := Put(d, k, e);
    FindNone(d, e.name);
    if Find(d, e.name) != 0 {
      var j := FirstFrom(d, e.name, 0);
      assert d'[j] == d[j] && d'[k] == e && j != k;
    } else {
      forall i, j | 0 <= i < j < |d'| && Live(d'[i]) && Live(d'[j])
        ensures d'[i].name != d'[j].name
      {
        assert i != k ==> d'[i] == d[i];
        assert j != k ==> d'[j] == d[j];
      }
    }
  }

  /** The check that precedes an addition protects names that are not cut, and only those. */
  lemma CheckedAddUnique(d: Slots, k: nat, inum: nat, name: string)
    requires FreeSlot(d, k) && inum > 0 && Unique(d) && Find(d, name) == 0
    ensures Unique(Put(d, k, Entry(inum, Cut(name)))) <==> |name| < NAMELEN || Find(d, Cut(name)) == 0
  {
    PutUnique(d, k, Entry(inum, Cut(name)));
  }

  /** A name of 28 characters can be added twice, and is found neither time. */
  lemma LongNameTwice(name: string, x: nat, y: nat)
    requires |name| >= NAMELEN && x > 0 && y > 0
    ensures var d1 := Put([], 0, Entry(x, Cut(name)));
            var d2 := Put(d1, 1, Entry(y, Cut(name)));
            Find([], name) == 0 && Find(d1, name) == 0 && FreeSlot(d1, 1) && !Unique(d2) && Find(d2, name) == 0
  {
    var d1 := Put([], 0, Entry(x, Cut(name)));
    var d2 := Put(d1, 1, Entry(y, Cut(name)));
    FindNone(d1, name);
    FindNone(d2, name);
    assert d2[0].name == d2[1].name;
  }

  // ----- Removing an entry -----

  function Removed(d: Slots, k: nat): (d': Slots)
    requires k < |d|
  {
    d[k := d[k].(inum := 0)]
  }

  /** Removing the entry of a name leaves the others, and the name refers to nothing if it was unique. */
  lemma RemovedFind(d: Slots, name: string, other: string)
    requires FirstFrom(d, name, 0) < |d|
    ensures var d' := Removed(d, FirstFrom(d, name, 0));
            && (other != name ==> Find(d', other) == Find(d, other))
            && (Unique(d) ==> Unique(d') && Find(d', name) == 0)
  {
    var k := FirstFrom(d, name, 0);
    var d' := Removed(d, k);
    if other != name {
      var f, f' := FirstFrom(d, other, 0), FirstFrom(d', other, 0);
      assert f < |d| ==> d'[f] == d[f];
      assert f' < |d'| ==> d'[f'] == d[f'];
      assert f == f';
    }
    if Unique(d) {
      FindNone(d', name);
      forall j | 0 <= j < |d'|
        ensures !(Live(d'[j]) && d'[j].name == name)
      {
        assert j != k ==> d'[j] == d[j];
      }
    }
  }

  // ----- The abstract directory: a map from names to inodes -----

  type Names = map<string, int>

  function Bound(m: Names, name: string): (x: int) {
    if name in m then m[name] else 0
  }

  /** No name occurs twice, and searching gives what the map says. */
  ghost predicate Agrees(d: Slots, m: Names) {
    Unique(d) && forall name {:trigger Bound(m, name)} :: Find(d, name) == Bound(m, name)
  }

  ghost predicate NamesOk(dirs: seq<Slots>, names: seq<Names>) {
    |names| == |dirs| && forall d {:trigger Agrees(dirs[d], names[d])} :: 0 <= d < |dirs| ==> Agrees(dirs[d], names[d])
  }

  lemma PutAgrees(d: Slots, m: Names, k: nat, e: Entry)
    requires FreeSlot(d, k) && Live(e) && Agrees(d, m) && Bound(m, e.name) == 0
    ensures Agrees(Put(d, k, e), m[e.name := e.inum])
  {
    PutUnique(d, k, e);
    forall name
      ensures Find(Put(d, k, e), name) == Bound(m[e.name := e.inum], name)
    {
      assert Find(d, name) == Bound(m, name);
      PutFind(d, k, e, name);
    }
  }

  lemma RemovedAgrees(d: Slots, m: Names, name: string)
    requires FirstFrom(d, name, 0) < |d| && Agrees(d, m)
    ensures Agrees(Removed(d, FirstFrom(d, name, 0)), m - {name})
  {
    var d' := Removed(d, FirstFrom(d, name, 0));
    RemovedFind(d, name, name);
    forall other
      ensures Find(d', other) == Bound(m - {name}, other)
    {
      assert Find(d, other) == Bound(m, other);
      RemovedFind(d, name, other);
    }
  }

  /** A directory without live entries agrees with the same map once its slots are gone. */
  lemma EmptiedAgrees(d: Slots, m: Names)
    requires Agrees(d, m) && forall j :: 0 <= j < |d| ==> !Live(d[j])
    ensures Agrees([], m)
  {
    forall name
      ensures Find([], name) == Bound(m, name)
    {
      assert Find(d, name) == Bound(m, name);
      FindNone(d, name);
    }
  }

  /** Adding a checked name to a directory; a name that is not cut, or whose stored part is new, keeps names unique. */
  lemma AddedNames(dirs: seq<Slots>, names: seq<Names>, d: nat, k: nat, x: nat, name: string)
    requires NamesOk(dirs, names) && d < |dirs| && FreeSlot(dirs[d], k) && x > 0 && Find(dirs[d], name) == 0
    ensures var dirs' := dirs[d := Put(dirs[d], k, Entry(x, Cut(name)))];
            if Clash(dirs, d, name) then !Unique(dirs'[d])
            else NamesOk(dirs', names[d := names[d][Cut(name) := x]])
  {
    assert Agrees(dirs[d], names[d]);
    CheckedAddUnique(dirs[d], k, x, name);
    var dirs', names' := dirs[d := Put(dirs[d], k, Entry(x, Cut(name)))], names[d := names[d][Cut(name) := x]];
    if !Clash(dirs, d, name) {
      assert Find(dirs[d], Cut(name)) == Bound(names[d], Cut(name));
      PutAgrees(dirs[d], names[d], k, Entry(x, Cut(name)));
      forall c | 0 <= c < |dirs'|
        ensures Agrees(dirs'[c], names'[c])
      {
        assert Agrees(dirs[c], names[c]);
      }
    }
  }

  /** The name is cut, and what is stored of it is there already. */
  ghost predicate Clash(dirs: seq<Slots>, d: nat, name: string)
    requires d < |dirs|
  {
    |name| >= NAMELEN && Find(dirs[d], Cut(name)) != 0
  }

  lemma RemovedNames(dirs: seq<Slots>, names: seq<Names>, d: nat, name: string)
    requires NamesOk(dirs, names) && d < |dirs| && FirstFrom(dirs[d], name, 0) < |dirs[d]|
    ensures NamesOk(dirs[d := Removed(dirs[d], FirstFrom(dirs[d], name, 0))], names[d := names[d] - {name}])
  {
    var dirs' := dirs[d := Removed(dirs[d], FirstFrom(dirs[d], name, 0))];
    var names' := names[d := names[d] - {name}];
    forall c | 0 <= c < |dirs'|
      ensures Agrees(dirs'[c], names'[c])
    {
      assert Agrees(dirs[c], names[c]);
      if c == d { RemovedAgrees(dirs[d], names[d], name); }
    }
  }

  lemma EmptiedNames(dirs: seq<Slots>, names: seq<Names>, x: nat)
    requires NamesOk(dirs, names) && x < |dirs| && forall j :: 0 <= j < |dirs[x]| ==> !Live(dirs[x][j])
    ensures NamesOk(dirs[x := []], names)
  {
    forall c | 0 <= c < |dirs|
      ensures Agrees(dirs[x := []][c], names[c])
    {
      assert Agrees(dirs[c], names[c]);
      if c == x { EmptiedAgrees(dirs[x], names[x]); }
    }
  }

  // ----- Counting links -----

  /** How many of the first `n` slots of a directory name inode `x`. */
  function CountIn(d: Slots, x: nat, n: nat): (c: nat)
    requires n <= |d|
  {
    if n == 0 then 0 else CountIn(d, x, n - 1) + (if d[n - 1].inum == x then 1 else 0)
  }

  /** How many slots of the first `n` directories name inode `x`. */
  function Links(dirs: seq<Slots>, x: nat, n: nat): (c: nat)
    requires n <= |dirs|
  {
    if n == 0 then 0 else Links(dirs, x, n - 1) + CountIn(dirs[n - 1], x, |dirs[n - 1]|)
  }

  lemma {:induction false} CountUpdate(d: Slots, x: nat, k: nat, e: Entry, n: nat)
    requires k < |d| && n <= |d|
    ensures CountIn(d[k := e], x, n) ==
            CountIn(d, x, n) + if k < n then (if e.inum == x then 1 else 0) - (if d[k].inum == x then 1 else 0) else 0
    decreases n
  {
    if n > 0 { CountUpdate(d, x, k, e, n - 1); }
  }

  lemma {:induction false} CountPrefix(d: Slots, x: nat, e: Entry, n: nat)
    requires n <= |d|
    ensures CountIn(d + [e], x, n) == CountIn(d, x, n)
    decreases n
  {
    if n > 0 { CountPrefix(d, x, e, n - 1); }
  }

  lemma CountPut(d: Slots, x: nat, k: nat, e: Entry)
    requires FreeSlot(d, k) && x > 0
    ensures CountIn(Put(d, k, e), x, |Put(d, k, e)|) == CountIn(d, x, |d|) + if e.inum == x then 1 else 0
  {
    if k < |d| { CountUpdate(d, x, k, e, |d|); } else { CountPrefix(d, x, e, |d|); }
  }

  lemma {:induction false} LinksUpdate(dirs: seq<Slots>, x: nat, d: nat, slots: Slots, n: nat)
    requires d < |dirs| && n <= |dirs|
    ensures Links(dirs[d := slots], x, n) ==
            Links(dirs, x, n) + if d < n then CountIn(slots, x, |slots|) - CountIn(dirs[d], x, |dirs[d]|) else 0
    decreases n
  {
    if n > 0 { LinksUpdate(dirs, x, d, slots, n - 1); }
  }

  lemma {:induction false} CountEmpty(d: Slots, x: nat, n: nat)
    requires n <= |d| && x > 0 && forall j :: 0 <= j < |d| ==> !Live(d[j])
    ensures CountIn(d, x, n) == 0
    decreases n
  {
    if n > 0 { CountEmpty(d, x, n - 1); }
  }

  // ----- The whole tree of directories -----

  const ROOT: nat := 1

  datatype Outcome = Done | Exist | NotExist | NoRes | WrongType | NotEmpty

  /** The link count of every inode in use but the root is the number of entries that name it; others have none. */
  ghost predicate LinksOk(dirs: seq<Slots>, live: seq<bool>, nlink: seq<nat>) {
    && |live| == |nlink| == |dirs|
    && forall x {:trigger live[x]} :: 1 <= x < |dirs| ==>
         Links(dirs, x, |dirs|) == if live[x] && x != ROOT then nlink[x] else 0
  }

  /** Only directories have slots, and not more than a file can hold. */
  ghost predicate ShapeOk(dirs: seq<Slots>, live: seq<bool>, isDir: seq<bool>) {
    && |dirs| == |live| == |isDir| && |dirs| > ROOT && live[ROOT] && isDir[ROOT]
    && (forall x :: 0 <= x < |dirs| ==> |dirs[x]| <= MAX_SLOTS)
    && (forall x :: 0 <= x < |dirs| && !(live[x] && isDir[x]) ==> dirs[x] == [])
    && (forall d, k {:trigger dirs[d][k]} :: 0 <= d < |dirs| && 0 <= k < |dirs[d]| ==> dirs[d][k].inum < |dirs|)
  }

  /** Adding an entry for `x` and one to its count. */
  lemma AddedLinks(dirs: seq<Slots>, live: seq<bool>, nlink: seq<nat>, d: nat, k: nat, e: Entry, live': seq<bool>,
                   nlink': seq<nat>)
    requires LinksOk(dirs, live, nlink) && d < |dirs| && FreeSlot(dirs[d], k) && ROOT < e.inum < |dirs|
    requires live' == live[e.inum := true]
    requires nlink' == nlink[e.inum := if live[e.inum] then nlink[e.inum] + 1 else 1]
    ensures LinksOk(dirs[d := Put(dirs[d], k, e)], live', nlink')
  {
    var slots := Put(dirs[d], k, e);
    var dirs' := dirs[d := slots];
    forall x | 1 <= x < |dirs'|
      ensures Links(dirs', x, |dirs'|) == if live'[x] && x != ROOT then nlink'[x] else 0
    {
      LinksUpdate(dirs, x, d, slots, |dirs|);
      CountPut(dirs[d], x, k, e);
      assert Links(dirs, x, |dirs|) == if live[x] && x != ROOT then nlink[x] else 0;
    }
  }

  /** Removing an entry for `x` and one from its count; an inode without links is given up. */
  lemma RemovedLinks(dirs: seq<Slots>, live: seq<bool>, nlink: seq<nat>, d: nat, k: nat, live': seq<bool>,
                     nlink': seq<nat>)
    requires LinksOk(dirs, live, nlink) && d < |dirs| && k < |dirs[d]| && ROOT < dirs[d][k].inum < |dirs|
    requires var x := dirs[d][k].inum;
             live[x] && nlink[x] > 0 && nlink' == nlink[x := nlink[x] - 1] && live' == live[x := nlink[x] > 1]
    ensures LinksOk(dirs[d := Removed(dirs[d], k)], live', nlink')
  {
    var slots := Removed(dirs[d], k);
    var dirs' := dirs[d := slots];
    forall x | 1 <= x < |dirs'|
      ensures Links(dirs', x, |dirs'|) == if live'[x] && x != ROOT then nlink'[x] else 0
    {
      LinksUpdate(dirs, x, d, slots, |dirs|);
      CountUpdate(dirs[d], x, k, dirs[d][k].(inum := 0), |dirs[d]|);
      assert Links(dirs, x, |dirs|) == if live[x] && x != ROOT then nlink[x] else 0;
    }
  }

  /** Giving up the slots of an empty directory. */
  lemma EmptiedLinks(dirs: seq<Slots>, live: seq<bool>, nlink: seq<nat>, d: nat)
    requires LinksOk(dirs, live, nlink) && d < |dirs| && forall j :: 0 <= j < |dirs[d]| ==> !Live(dirs[d][j])
    ensures LinksOk(dirs[d := []], live, nlink)
  {
    var dirs' := dirs[d := []];
    forall x | 1 <= x < |dirs'|
      ensures Links(dirs', x, |dirs'|) == if live[x] && x != ROOT then nlink[x] else 0
    {
      LinksUpdate(dirs, x, d, [], |dirs|);
      CountEmpty(dirs[d], x, |dirs[d]|);
      assert Links(dirs, x, |dirs|) == if live[x] && x != ROOT then nlink[x] else 0;
    }
  }

  /** An inode that an entry names has a link. */
  lemma {:induction false} NamedCount(d: Slots, x: nat, k: nat, n: nat)
    requires k < n <= |d| && d[k].inum == x
    ensures CountIn(d, x, n) > 0
    decreases n
  {
    if k < n - 1 { NamedCount(d, x, k, n - 1); }
  }

  lemma {:induction false} NamedLinks(dirs: seq<Slots>, x: nat, d: nat, k: nat, n: nat)
    requires d < n <= |dirs| && k < |dirs[d]| && dirs[d][k].inum == x
    ensures Links(dirs, x, n) > 0
    decreases n
  {
    if d < n - 1 { NamedLinks(dirs, x, d, k, n - 1); } else { NamedCount(dirs[d], x, k, |dirs[d]|); }
  }

  class DirectoryTree {
    var dirs: seq<Slots>
    var live: seq<bool>
    var isDir: seq<bool>
    var nlink: seq<nat>
    // What the names of each directory refer to, and whether a name that had to be cut
    // has ever been added beside the same stored name.
    ghost var names: seq<Names>
    ghost var clashed: bool

    ghost predicate Valid()
      reads this
    {
      && LinksOk(dirs, live, nlink) && ShapeOk(dirs, live, isDir)
      && |names| == |dirs| && (!clashed ==> NamesOk(dirs, names))
    }

    /** Unless names have clashed, no directory has a name twice and a search gives what the map says. */
    lemma SearchIsMap(d: nat, name: string)
      requires Valid() && !clashed && d < |dirs|
      ensures Unique(dirs[d]) && Find(dirs[d], name) == Bound(names[d], name)
    {
      assert Agrees(dirs[d], names[d]);
    }

    /** And every live entry is what the map says of its name. */
    lemma EntryIsMap(d: nat, k: nat)
      requires Valid() && !clashed && d < |dirs| && k < |dirs[d]| && Live(dirs[d][k])
      ensures Bound(names[d], dirs[d][k].name) == dirs[d][k].inum
    {
      SearchIsMap(d, dirs[d][k].name);
      FindUnique(dirs[d], dirs[d][k].name, k);
    }

    /** The root directory alone. */
    constructor (inodes: nat)
      requires inodes > ROOT
      ensures Valid() && |dirs| == inodes && forall d :: 0 <= d < inodes ==> dirs[d] == [] && live[d] == (d == ROOT)
      ensures !clashed && forall d :: 0 <= d < inodes ==> names[d] == map[]
    {
      dirs := seq(inodes, _ => []);
      live := seq(inodes, i => i == ROOT);
      isDir := seq(inodes, i => i == ROOT);
      nlink := seq(inodes, _ => 1);
      names, clashed := seq(inodes, _ => map[]), false;
      new;
      forall d | 0 <= d < |dirs|
        ensures Agrees(dirs[d], names[d])
      {
      }
      forall x | 1 <= x < |dirs|
        ensures Links(dirs, x, |dirs|) == 0
      {
        NoLinks(dirs, x, |dirs|);
      }
    }

    /** The inode that a name refers to, or 0. */
    method SearchDir(d: nat, name: string) returns (x: nat)
      requires d < |dirs|
      ensures x == Find(dirs[d], name)
      ensures Valid() && !clashed ==> x == Bound(names[d], name)
    {
      if Valid() && !clashed { SearchIsMap(d, name); }
      var i := 0;
      while i < |dirs[d]|
        invariant 0 <= i <= |dirs[d]| && FirstFrom(dirs[d], name, 0) == FirstFrom(dirs[d], name, i)
      {
        if Live(dirs[d][i]) && dirs[d][i].name == name { return dirs[d][i].inum; }
        i := i + 1;
      }
      return 0;
    }

    /** The first slot for a new entry; a new slot may need a block, which `room` says there is. */
    method FindSlot(d: nat, room: bool) returns (k: Option<nat>)
      requires Valid() && d < |dirs|
      ensures k.Some? ==> FreeSlot(dirs[d], k.value) && k.value < MAX_SLOTS
      ensures k.None? <==> NoSlot(dirs[d], room)
    {
      var i := 0;
      while i < |dirs[d]|
        invariant 0 <= i <= |dirs[d]| && forall j :: 0 <= j < i ==> Live(dirs[d][j])
      {
        if !Live(dirs[d][i]) { return Some(i); }
        i := i + 1;
      }
      if i >= MAX_SLOTS || (i % 16 == 0 && !room) { return None; }
      return Some(i);
    }

    method IsDirEmpty(d: nat) returns (empty: bool)
      requires d < |dirs|
      ensures empty <==> forall j :: 0 <= j < |dirs[d]| ==> !Live(dirs[d][j])
    {
      var i := 0;
      while i < |dirs[d]|
        invariant 0 <= i <= |dirs[d]| && forall j :: 0 <= j < i ==> !Live(dirs[d][j])
      {
        if Live(dirs[d][i]) { return false; }
        i := i + 1;
      }
      return true;
    }

    /** The first inode that is not in use. */
    method AllocInode() returns (x: Option<nat>)
      requires Valid()
      ensures x.Some? ==> ROOT < x.value < |live| && !live[x.value] && forall i :: 1 <= i < x.value ==> live[i]
      ensures x.None? ==> forall i :: 1 <= i < |live| ==> live[i]
    {
      var i := 1;
      while i < |live|
        invariant 1 <= i <= |live| && forall j :: 1 <= j < i ==> live[j]
      {
        if !live[i] { return Some(i); }
        i := i + 1;
      }
      return None;
    }

    /** Enter a name that is about to be stored in slot `k` in the map of its directory. */
    ghost method Enter(d: nat, k: nat, x: nat, name: string)
      requires |names| == |dirs| && (!clashed ==> NamesOk(dirs, names))
      requires d < |dirs| && FreeSlot(dirs[d], k) && x > 0 && Find(dirs[d], name) == 0
      modifies `names, `clashed
      ensures names == old(names)[d := old(names)[d][Cut(name) := x]]
      ensures clashed <==> old(clashed) || Clash(dirs, d, name)
      ensures var dirs' := dirs[d := Put(dirs[d], k, Entry(x, Cut(name)))];
              && (!clashed ==> NamesOk(dirs', names)) && (!old(clashed) && clashed ==> !Unique(dirs'[d]))
    {
      if !clashed { AddedNames(dirs, names, d, k, x, name); }
      names, clashed := names[d := names[d][Cut(name) := x]], clashed || Clash(dirs, d, name);
    }

    /** Store a name for inode `x` in slot `k`; an inode that was not in use gets its first link. */
    method AddDirent(d: nat, k: nat, x: nat, name: string)
      requires Valid() && d < |dirs| && live[d] && isDir[d] && FreeSlot(dirs[d], k) && Find(dirs[d], name) == 0
      requires ROOT < x < |dirs| && k < MAX_SLOTS
      modifies `dirs, `live, `nlink, `names, `clashed
      ensures Valid() && dirs == old(dirs)[d := Put(old(dirs)[d], k, Entry(x, Cut(name)))]
      ensures live == old(live)[x := true] && nlink == old(nlink)[x := if old(live)[x] then old(nlink)[x] + 1 else 1]
      ensures names == old(names)[d := old(names)[d][Cut(name) := x]]
      ensures clashed <==> old(clashed) || Clash(old(dirs), d, name)
      ensures !old(clashed) && clashed ==> !Unique(dirs[d])
    {
      var n := if live[x] then nlink[x] + 1 else 1;
      AddedLinks(dirs, live, nlink, d, k, Entry(x, Cut(name)), live[x := true], nlink[x := n]);
      Enter(d, k, x, name);
      dirs := dirs[d := Put(dirs[d], k, Entry(x, Cut(name)))];
      live, nlink := live[x := true], nlink[x := n];
    }

    /** Create an empty file or directory. */
    method Create(d: nat, name: string, asDir: bool, room: bool) returns (r: Outcome, x: nat)
      requires Valid() && d < |dirs| && live[d] && isDir[d]
      modifies this
      ensures Valid() && |dirs| == |old(dirs)|
      ensures r == Exist <==> old(Find(dirs[d], name)) != 0
      ensures r == NoRes <==> old(Find(dirs[d], name)) == 0
                              && ((forall i :: 1 <= i < |dirs| ==> old(live)[i]) || NoSlot(old(dirs)[d], room))
      ensures r == Done || r == Exist || r == NoRes
      ensures r != Done ==> dirs == old(dirs) && live == old(live)
      ensures r == Exist ==> nlink == old(nlink) && isDir == old(isDir)
      ensures r != Done ==> |nlink| == |isDir| == |dirs| && forall i :: 0 <= i < |dirs| && live[i] ==>
                              nlink[i] == old(nlink)[i] && isDir[i] == old(isDir)[i]
      ensures r == Done ==> ROOT < x < |dirs| && !old(live)[x] && live == old(live)[x := true]
      ensures r == Done ==> forall i :: 1 <= i < x ==> old(live)[i]
      ensures r == Done ==> nlink == old(nlink)[x := 1] && isDir == old(isDir)[x := asDir]
      ensures r == Done ==> Added(old(dirs), d, Entry(x, Cut(name)), dirs)
      ensures names == if r == Done then old(names)[d := old(names)[d][Cut(name) := x]] else old(names)
      ensures clashed <==> old(clashed) || (r == Done && Clash(old(dirs), d, name))
      ensures !old(clashed) && clashed ==> !Unique(dirs[d])
    {
      x := SearchDir(d, name);
      if x != 0 { return Exist, 0; }
      var y := AllocInode();
      if y.None? { return NoRes, 0; }
      x := y.value;
      var k := FindSlot(d, room);
      if k.None? {
        nlink, isDir := nlink[x := 1], isDir[x := asDir];
        return NoRes, 0;
      }
      isDir := isDir[x := asDir];
      AddDirent(d, k.value, x, name);
      return Done, x;
    }

    /** Give a file one more name. */
    method Link(d: nat, x: nat, name: string, room: bool) returns (r: Outcome)
      requires Valid() && d < |dirs| && live[d] && isDir[d] && ROOT < x < |dirs| && live[x] && !isDir[x]
      modifies `dirs, `live, `nlink, `names, `clashed
      ensures Valid() && |dirs| == |old(dirs)| && live == old(live)
      ensures r == Exist <==> old(Find(dirs[d], name)) != 0
      ensures r == NoRes <==> old(Find(dirs[d], name)) == 0 && NoSlot(old(dirs)[d], room)
      ensures r == Done || r == Exist || r == NoRes
      ensures r != Done ==> dirs == old(dirs) && nlink == old(nlink)
      ensures r == Done ==>
                nlink == old(nlink)[x := old(nlink)[x] + 1] && Added(old(dirs), d, Entry(x, Cut(name)), dirs)
      ensures names == if r == Done then old(names)[d := old(names)[d][Cut(name) := x]] else old(names)
      ensures clashed <==> old(clashed) || (r == Done && Clash(old(dirs), d, name))
      ensures !old(clashed) && clashed ==> !Unique(dirs[d])
    {
      var y := SearchDir(d, name);
      if y != 0 { return Exist; }
      var k := FindSlot(d, room);
      if k.None? { return NoRes; }
      AddDirent(d, k.value, x, name);
      return Done;
    }

    /** What a name refers to is in use, and has a link. */
    lemma Named(d: nat, name: string)
      requires Valid() && d < |dirs| && Find(dirs[d], name) != 0
      ensures var k := FirstFrom(dirs[d], name, 0);
              k < |dirs[d]| && var x := dirs[d][k].inum;
              x == Find(dirs[d], name) && ROOT < x < |dirs| && live[x] && nlink[x] > 0
    {
      var k := FirstFrom(dirs[d], name, 0);
      var x := dirs[d][k].inum;
      NamedLinks(dirs, x, d, k, |dirs|);
      assert Links(dirs, x, |dirs|) == if live[x] && x != ROOT then nlink[x] else 0;
    }

    /** Remove a name; the inode goes with its last name. */
    method Unlink(d: nat, name: string, wantDir: bool) returns (r: Outcome)
      requires Valid() && d < |dirs| && live[d] && isDir[d]
      modifies this
      ensures Valid() && |dirs| == |old(dirs)|
      ensures r == NotExist <==> old(Find(dirs[d], name)) == 0
      ensures r == Done || r == NotExist || r == WrongType || r == NotEmpty
      ensures r != Done ==> dirs == old(dirs) && live == old(live) && nlink == old(nlink)
      ensures isDir == old(isDir)
      ensures names == if r == Done then old(names)[d := old(names)[d] - {name}] else old(names)
      ensures clashed == old(clashed)
      ensures var x := old(Find(dirs[d], name));
              && x < |dirs| && (r == WrongType <==> x != 0 && old(isDir)[x] != wantDir)
              && (r == NotEmpty <==> x != 0 && wantDir && old(isDir)[x]
                                     && exists j :: 0 <= j < |old(dirs)[x]| && Live(old(dirs)[x][j]))
              && (r == Done ==> x != d)
              && (r == Done ==> Gone(old(dirs), old(live), old(nlink), d, name, x, dirs, live, nlink))
    {
      var x := SearchDir(d, name);
      if x == 0 { return NotExist; }
      Named(d, name);
      if isDir[x] != wantDir { return WrongType; }
      if wantDir {
        var empty := IsDirEmpty(x);
        if !empty { return NotEmpty; }
      }
      Drop(d, name, x);
      return Done;
    }

    /** Free the entry of a name and drop one link. */
    method Drop(d: nat, name: string, x: nat)
      requires Valid() && d < |dirs| && live[d] && isDir[d] && x == Find(dirs[d], name) != 0
      requires x < |dirs| ==> forall j :: 0 <= j < |dirs[x]| ==> !Live(dirs[x][j])
      modifies `dirs, `live, `nlink, `names
      ensures Valid() && x < |dirs| && x != d && Gone(old(dirs), old(live), old(nlink), d, name, x, dirs, live, nlink)
      ensures names == old(names)[d := old(names)[d] - {name}]
    {
      Named(d, name);
      GoneKeeps(dirs, live, isDir, nlink, names, clashed, d, name, x);
      var k := FindEntry(d, name);
      dirs := dirs[d := Removed(dirs[d], k)];
      names := names[d := names[d] - {name}];
      nlink, live := nlink[x := nlink[x] - 1], live[x := nlink[x] > 1];
      if nlink[x] == 0 { dirs := dirs[x := []]; }
    }

    /** The slot of a name that is there. */
    method FindEntry(d: nat, name: string) returns (k: nat)
      requires d < |dirs| && Find(dirs[d], name) != 0
      ensures k == FirstFrom(dirs[d], name, 0) < |dirs[d]|
    {
      k := 0;
      while !(Live(dirs[d][k]) && dirs[d][k].name == name)
        invariant 0 <= k < |dirs[d]| && FirstFrom(dirs[d], name, 0) == FirstFrom(dirs[d], name, k) < |dirs[d]|
        decreases |dirs[d]| - k
      {
        k := k + 1;
      }
    }
  }

  /** One entry of directory `d` and one link of `x` are gone, and `x` itself if that was its last link. */
  ghost predicate Gone(dirs0: seq<Slots>, live0: seq<bool>, nlink0: seq<nat>, d: nat, name: string, x: nat,
                       dirs1: seq<Slots>, live1: seq<bool>, nlink1: seq<nat>) {
    && d < |dirs0| && FirstFrom(dirs0[d], name, 0) < |dirs0[d]| && x < |dirs0| == |live0| == |nlink0| && nlink0[x] > 0
    && nlink1 == nlink0[x := nlink0[x] - 1] && live1 == live0[x := nlink0[x] > 1]
    && dirs1 == dirs0[x := if nlink0[x] > 1 then dirs0[x] else []][d := Removed(dirs0[d], FirstFrom(dirs0[d], name, 0))]
  }

  /** The directories after that. */
  ghost function DirsAfter(dirs: seq<Slots>, nlink: seq<nat>, d: nat, name: string, x: nat): (dirs': seq<Slots>)
    requires d < |dirs| && FirstFrom(dirs[d], name, 0) < |dirs[d]| && x < |dirs| == |nlink|
  {
    var less := dirs[d := Removed(dirs[d], FirstFrom(dirs[d], name, 0))];
    if nlink[x] > 1 then less else less[x := []]
  }

  lemma GoneKeeps(dirs: seq<Slots>, live: seq<bool>, isDir: seq<bool>, nlink: seq<nat>, names: seq<Names>,
                  clashed: bool,
                  d: nat, name: string, x: nat)
    requires LinksOk(dirs, live, nlink) && ShapeOk(dirs, live, isDir) && d < |dirs| == |names| && live[d] && isDir[d]
    requires FirstFrom(dirs[d], name, 0) < |dirs[d]| && x == dirs[d][FirstFrom(dirs[d], name, 0)].inum
    requires ROOT < x < |dirs| && live[x] && nlink[x] > 0 && forall j :: 0 <= j < |dirs[x]| ==> !Live(dirs[x][j])
    requires !clashed ==> NamesOk(dirs, names)
    ensures var dirs', live' := DirsAfter(dirs, nlink, d, name, x), live[x := nlink[x] > 1];
            && LinksOk(dirs', live', nlink[x := nlink[x] - 1]) && ShapeOk(dirs', live', isDir)
            && (!clashed ==> NamesOk(dirs', names[d := names[d] - {name}]))
    ensures x != d
    ensures Gone(dirs, live, nlink, d, name, x,
                 DirsAfter(dirs, nlink, d, name, x), live[x := nlink[x] > 1], nlink[x := nlink[x] - 1])
  {
    var k := FirstFrom(dirs[d], name, 0);
    var less, live', nlink' := dirs[d := Removed(dirs[d], k)], live[x := nlink[x] > 1], nlink[x := nlink[x] - 1];
    assert Live(dirs[d][k]);
    RemovedLinks(dirs, live, nlink, d, k, live', nlink');
    if !clashed { RemovedNames(dirs, names, d, name); }
    if nlink[x] == 1 {
      EmptiedLinks(less, live', nlink', x);
      if !clashed { EmptiedNames(less, names[d := names[d] - {name}], x); }
    }
  }

  /** There is no free slot, and none can be added. */
  ghost predicate NoSlot(d: Slots, room: bool) {
    (forall j :: 0 <= j < |d| ==> Live(d[j])) && (|d| >= MAX_SLOTS || (|d| % 16 == 0 && !room))
  }

  lemma {:induction false} NoLinks(dirs: seq<Slots>, x: nat, n: nat)
    requires n <= |dirs| && forall d :: 0 <= d < |dirs| ==> dirs[d] == []
    ensures Links(dirs, x, n) == 0
    decreases n
  {
    if n > 0 { NoLinks(dirs, x, n - 1); }
  }

  /** Directory `d` has got one more entry, in its first free slot; no other directory has changed. */
  ghost predicate Added(dirs0: seq<Slots>, d: nat, e: Entry, dirs1: seq<Slots>) {
    d < |dirs0| && exists k: nat :: k < MAX_SLOTS && FreeSlot(dirs0[d], k) && dirs1 == dirs0[d := Put(dirs0[d], k, e)]
  }
}
