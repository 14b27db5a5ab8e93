/** The duplicate finder of deduplicate.py: walk a tree, keep `.pdf` and `.epub`
    files other than the script itself, group them by content digest, keep the
    most recently modified file of each group and move every other one into a
    destination directory under its own base name.

    The directory walk arrives as a sequence of entries, each already carrying
    the file's content digest and its modification time; `abspath` and the
    script's own path are parameters. A move is recorded as a `Move` value
    instead of being carried out. */
module Dedup {
  import opened Paths

  /** One file reported by the walk: its directory, its name, the digest of its
      content and its modification time. */
  datatype WalkEntry = WalkEntry(dir: string, name: string, digest: string, mtime: int)

  /** The `(file_path, file_mod_time)` pair stored in a digest group. */
  datatype FileRec = FileRec(path: string, mtime: int)

  /** A file that passed the filters, with the digest it is grouped under. */
  datatype Found = Found(digest: string, file: FileRec)

  /** One `shutil.move(src, dst)`. */
  datatype Move = Move(src: string, dst: string)

  // ---------------------------------------------------------------------------
  // Filtering the walk

  predicate IsBook(name: string)
  {
    EndsWith(name, ".pdf") || EndsWith(name, ".epub")
  }

  function PathOf(e: WalkEntry): string
  {
    Join(e.dir, e.name)
  }

  /** A walk entry is hashed and grouped when its name has a book extension and
      its absolute path is not that of the script. */
  predicate Kept(e: WalkEntry, abspath: string -> string, script: string)
  {
    IsBook(e.name) && abspath(PathOf(e)) != abspath(script)
  }

  function ToFound(e: WalkEntry): Found
  {
    Found(e.digest, FileRec(PathOf(e), e.mtime))
  }

  /** The files that reach the grouping step, in walk order. */
  function Considered(walk: seq<WalkEntry>, abspath: string -> string, script: string): seq<Found>
  {
    if walk == [] then []
    else
      var e := walk[|walk| - 1];
      Considered(walk[..|walk| - 1], abspath, script) + (if Kept(e, abspath, script) then [ToFound(e)] else [])
  }

  /** A file is considered exactly when some walk entry passes both filters and
      yields it; in particular the script never is. */
  lemma {:induction false} ConsideredExactly(walk: seq<WalkEntry>, abspath: string -> string, script: string, x: Found)
    ensures x in Considered(walk, abspath, script) <==>
      exists i :: 0 <= i < |walk| && Kept(walk[i], abspath, script) && x == ToFound(walk[i])
  {
    if walk != [] {
      var init := walk[..|walk| - 1];
      ConsideredExactly(init, abspath, script, x);
      if x in Considered(init, abspath, script) {
        var i :| 0 <= i < |init| && Kept(init[i], abspath, script) && x == ToFound(init[i]);
        assert walk[i] == init[i];
      }
      if exists i :: 0 <= i < |walk| && Kept(walk[i], abspath, script) && x == ToFound(walk[i]) {
        var i :| 0 <= i < |walk| && Kept(walk[i], abspath, script) && x == ToFound(walk[i]);
        if i < |init| {
          assert init[i] == walk[i];
        }
      }
    }
  }

  // ---------------------------------------------------------------------------
  // Grouping by digest

  /** The distinct digests of `cs` in order of first occurrence: the keys of the
      `hashes` dictionary in insertion order. */
  function Digests(cs: seq<Found>): (ds: seq<string>)
    ensures forall j, k :: 0 <= j < k < |ds| ==> ds[j] != ds[k]
    ensures forall h :: h in ds <==> exists i :: 0 <= i < |cs| && cs[i].digest == h
  {
    if cs == [] then []
    else
      var init := cs[..|cs| - 1];
      var d := cs[|cs| - 1].digest;
      var ds := Digests(init);
      assert forall i :: 0 <= i < |init| ==> init[i] == cs[i];
      if d in ds then ds else ds + [d]
  }

  /** First-seen order: a key listed before another first occurs in the walk
      before every occurrence of the other. */
  lemma {:induction false} DigestsFirstSeen(cs: seq<Found>)
    ensures forall j, k, p :: 0 <= j < k < |Digests(cs)| && 0 <= p < |cs| && cs[p].digest == Digests(cs)[k] ==>
      exists q :: 0 <= q < p && cs[q].digest == Digests(cs)[j]
  {
    if cs != [] {
      var init, c := cs[..|cs| - 1], cs[|cs| - 1];
      var ds, di := Digests(cs), Digests(init);
      DigestsFirstSeen(init);
      assert forall i :: 0 <= i < |init| ==> init[i] == cs[i];
      forall j, k, p | 0 <= j < k < |ds| && 0 <= p < |cs| && cs[p].digest == ds[k]
        ensures exists q :: 0 <= q < p && cs[q].digest == ds[j]
      {
        if k < |di| {
          assert ds[j] == di[j] && ds[k] == di[k];
          if p < |init| {
            assert init[p].digest == di[k];
            var q :| 0 <= q < p && init[q].digest == di[j];
            assert cs[q].digest == ds[j];
          } else {
            assert di[k] in di;
            var p' :| 0 <= p' < |init| && init[p'].digest == di[k];
            var q :| 0 <= q < p' && init[q].digest == di[j];
            assert cs[q].digest == ds[j];
          }
        } else {
          assert ds[j] == di[j] && ds[k] == c.digest && c.digest !in di;
          assert di[j] in di;
          var q :| 0 <= q < |init| && init[q].digest == di[j];
          assert cs[q].digest == ds[j];
        }
      }
    }
  }

  /** The list `hashes[h]`: the files with digest `h`, in walk order. */
  function GroupOf(cs: seq<Found>, h: string): seq<FileRec>
  {
    if cs == [] then []
    else
      var c := cs[|cs| - 1];
      GroupOf(cs[..|cs| - 1], h) + (if c.digest == h then [c.file] else [])
  }

  /** The positions in `cs` of the files with digest `h`, ascending. */
  function GroupIndices(cs: seq<Found>, h: string): (ix: seq<nat>)
    ensures forall j :: 0 <= j < |ix| ==> ix[j] < |cs| && cs[ix[j]].digest == h
    ensures forall j, k :: 0 <= j < k < |ix| ==> ix[j] < ix[k]
    ensures forall i :: 0 <= i < |cs| && cs[i].digest == h ==> i in ix
  {
    if cs == [] then []
    else
      var init := cs[..|cs| - 1];
      assert forall i :: 0 <= i < |init| ==> init[i] == cs[i];
      GroupIndices(init, h) + (if cs[|cs| - 1].digest == h then [|cs| - 1] else [])
  }

  /** Group `h` lists, in walk order, exactly the files of `cs` whose digest is `h`. */
  lemma {:induction false} GroupInWalkOrder(cs: seq<Found>, h: string)
    ensures |GroupOf(cs, h)| == |GroupIndices(cs, h)|
    ensures forall j :: 0 <= j < |GroupOf(cs, h)| ==> GroupOf(cs, h)[j] == cs[GroupIndices(cs, h)[j]].file
  {
    if cs != [] {
      var init := cs[..|cs| - 1];
      GroupInWalkOrder(init, h);
      assert forall i :: 0 <= i < |init| ==> init[i] == cs[i];
    }
  }

  lemma {:induction false} GroupOfAbsent(cs: seq<Found>, h: string)
    requires forall i :: 0 <= i < |cs| ==> cs[i].digest != h
    ensures GroupOf(cs, h) == []
  {
    if cs != [] {
      GroupOfAbsent(cs[..|cs| - 1], h);
    }
  }

  lemma GroupOfPresent(cs: seq<Found>, h: string)
    requires h in Digests(cs)
    ensures GroupOf(cs, h) != []
  {
    var i :| 0 <= i < |cs| && cs[i].digest == h;
    GroupInWalkOrder(cs, h);
    assert i in GroupIndices(cs, h);
  }

  lemma GroupOfSnoc(cs: seq<Found>, f: Found, h: string)
    ensures GroupOf(cs + [f], h) == GroupOf(cs, h) + (if f.digest == h then [f.file] else [])
  {
    assert (cs + [f])[..|cs|] == cs;
  }

  /** The groups of `ks`, one after another. */
  function ConcatGroups(cs: seq<Found>, ks: seq<string>): seq<FileRec>
  {
    if ks == [] then [] else ConcatGroups(cs, ks[..|ks| - 1]) + GroupOf(cs, ks[|ks| - 1])
  }

  function Files(cs: seq<Found>): seq<FileRec>
  {
    if cs == [] then [] else Files(cs[..|cs| - 1]) + [cs[|cs| - 1].file]
  }

  /** A file whose digest is not among `ks` joins none of their groups. */
  lemma {:induction false} ConcatGroupsSnocOther(cs: seq<Found>, f: Found, ks: seq<string>)
    requires f.digest !in ks
    ensures ConcatGroups(cs + [f], ks) == ConcatGroups(cs, ks)
  {
    if ks != [] {
      var init, last := ks[..|ks| - 1], ks[|ks| - 1];
      assert f.digest !in init by {
        assert ks == init + [last];
      }
      ConcatGroupsSnocOther(cs, f, init);
      GroupOfSnoc(cs, f, last);
    }
  }

  /** A file whose digest is one of the distinct keys `ks` joins exactly one group. */
  lemma {:induction false} ConcatGroupsSnoc(cs: seq<Found>, f: Found, ks: seq<string>)
    requires forall j, k :: 0 <= j < k < |ks| ==> ks[j] != ks[k]
    requires f.digest in ks
    ensures multiset(ConcatGroups(cs + [f], ks)) == multiset(ConcatGroups(cs, ks)) + multiset{f.file}
  {
    var init, last := ks[..|ks| - 1], ks[|ks| - 1];
    GroupOfSnoc(cs, f, last);
    if f.digest == last {
      assert f.digest !in init by {
        forall j | 0 <= j < |init| ensures init[j] != last {
          assert init[j] == ks[j];
        }
      }
      ConcatGroupsSnocOther(cs, f, init);
      assert ConcatGroups(cs + [f], ks) == ConcatGroups(cs, ks) + [f.file];
    } else {
      assert f.digest in init by {
        assert ks == init + [last];
      }
      ConcatGroupsSnoc(cs, f, init);
      assert ConcatGroups(cs + [f], ks) == ConcatGroups(cs + [f], init) + GroupOf(cs, last);
    }
  }

  /** Grouping loses and duplicates nothing: for distinct keys covering every
      digest, the groups together hold exactly the considered files. */
  lemma {:induction false} GroupsPartitionFiles(cs: seq<Found>, ks: seq<string>)
    requires forall j, k :: 0 <= j < k < |ks| ==> ks[j] != ks[k]
    requires forall i :: 0 <= i < |cs| ==> cs[i].digest in ks
    ensures multiset(ConcatGroups(cs, ks)) == multiset(Files(cs))
  {
    if cs == [] {
      GroupsEmpty(ks);
    } else {
      var init, f := cs[..|cs| - 1], cs[|cs| - 1];
      assert cs == init + [f];
      GroupsPartitionFiles(init, ks);
      ConcatGroupsSnoc(init, f, ks);
    }
  }

  lemma {:induction false} GroupsEmpty(ks: seq<string>)
    ensures ConcatGroups([], ks) == []
  {
    if ks != [] {
      GroupsEmpty(ks[..|ks| - 1]);
    }
  }

  // ---------------------------------------------------------------------------
  // Sorting a group newest first

  /** Inserts `x` behind every element of the sorted prefix `t` that is at least
      as recent; a stable step of sorting by modification time, descending. */
  function Insert(t: seq<FileRec>, x: FileRec): seq<FileRec>
  {
    if t == [] then [x]
    else if t[|t| - 1].mtime >= x.mtime then t + [x]
    else Insert(t[..|t| - 1], x) + [t[|t| - 1]]
  }

  /** `sorted(s, key=mtime, reverse=True)`: a stable sort, newest first. */
  function NewestFirst(s: seq<FileRec>): seq<FileRec>
  {
    if s == [] then [] else Insert(NewestFirst(s[..|s| - 1]), s[|s| - 1])
  }

  predicate SortedNewestFirst(s: seq<FileRec>)
  {
    forall j, k :: 0 <= j < k < |s| ==> s[j].mtime >= s[k].mtime
  }

  lemma {:induction false} InsertPermutes(t: seq<FileRec>, x: FileRec)
    ensures multiset(Insert(t, x)) == multiset(t) + multiset{x}
  {
    if t != [] && t[|t| - 1].mtime < x.mtime {
      InsertPermutes(t[..|t| - 1], x);
      assert t == t[..|t| - 1] + [t[|t| - 1]];
    }
  }

  /** Inserting keeps a lower bound that `x` and every element of `t` meet. */
  lemma {:induction false} InsertAtLeast(t: seq<FileRec>, x: FileRec, m: int)
    requires forall k :: 0 <= k < |t| ==> t[k].mtime >= m
    requires x.mtime >= m
    ensures forall k :: 0 <= k < |Insert(t, x)| ==> Insert(t, x)[k].mtime >= m
  {
    if t != [] && t[|t| - 1].mtime < x.mtime {
      InsertAtLeast(t[..|t| - 1], x, m);
    }
  }

  lemma {:induction false} InsertSorted(t: seq<FileRec>, x: FileRec)
    requires SortedNewestFirst(t)
    ensures SortedNewestFirst(Insert(t, x))
  {
    if t != [] && t[|t| - 1].mtime < x.mtime {
      var init, last := t[..|t| - 1], t[|t| - 1];
      InsertSorted(init, x);
      InsertAtLeast(init, x, last.mtime);
      var r := Insert(init, x);
      assert Insert(t, x) == r + [last];
    }
  }

  /** Sorting keeps every file and orders the group newest first. */
  lemma {:induction false} NewestFirstSortsAndPermutes(s: seq<FileRec>)
    ensures multiset(NewestFirst(s)) == multiset(s)
    ensures |NewestFirst(s)| == |s|
    ensures SortedNewestFirst(NewestFirst(s))
  {
    if s != [] {
      var init := s[..|s| - 1];
      NewestFirstSortsAndPermutes(init);
      InsertPermutes(NewestFirst(init), s[|s| - 1]);
      InsertSorted(NewestFirst(init), s[|s| - 1]);
      assert s == init + [s[|s| - 1]];
    }
  }

  /** Index of the first file of `s`, in its own order, with the latest
      modification time. */
  function FirstNewest(s: seq<FileRec>): (k: nat)
    requires s != []
    ensures k < |s|
    ensures forall j :: 0 <= j < |s| ==> s[j].mtime <= s[k].mtime
    ensures forall j :: 0 <= j < k ==> s[j].mtime < s[k].mtime
  {
    if |s| == 1 then 0
    else
      var init := s[..|s| - 1];
      var k := FirstNewest(init);
      assert forall j :: 0 <= j < |init| ==> init[j] == s[j];
      if s[|s| - 1].mtime > s[k].mtime then |s| - 1 else k
  }

  lemma {:induction false} InsertKeepsHead(t: seq<FileRec>, x: FileRec)
    requires t != [] && t[0].mtime >= x.mtime
    ensures Insert(t, x)[0] == t[0]
  {
    if t[|t| - 1].mtime < x.mtime {
      InsertKeepsHead(t[..|t| - 1], x);
    }
  }

  lemma {:induction false} InsertInFront(t: seq<FileRec>, x: FileRec)
    requires forall j :: 0 <= j < |t| ==> t[j].mtime < x.mtime
    ensures Insert(t, x) == [x] + t
  {
    if t != [] {
      InsertInFront(t[..|t| - 1], x);
      assert t == t[..|t| - 1] + [t[|t| - 1]];
    }
  }

  /** The file the sort puts first is the newest one, and among files equally
      new the one met first: the sort is stable. */
  lemma {:induction false} HeadIsFirstNewest(s: seq<FileRec>)
    requires s != []
    ensures NewestFirst(s)[0] == s[FirstNewest(s)]
  {
    var init, x := s[..|s| - 1], s[|s| - 1];
    if init == [] {
      assert NewestFirst(s) == Insert([], x);
    } else {
      HeadIsFirstNewest(init);
      NewestFirstSortsAndPermutes(init);
      var t := NewestFirst(init);
      var k := FirstNewest(init);
      assert forall j :: 0 <= j < |init| ==> init[j] == s[j];
      assert t[0] == init[k];
      if x.mtime > init[k].mtime {
        forall j | 0 <= j < |t| ensures t[j].mtime < x.mtime {
          assert t[j] in multiset(init);
        }
        InsertInFront(t, x);
      } else {
        InsertKeepsHead(t, x);
      }
    }
  }

  /** The files of `s` modified at time `m`, in their order in `s`. */
  function Tied(s: seq<FileRec>, m: int): seq<FileRec>
  {
    if s == [] then []
    else Tied(s[..|s| - 1], m) + (if s[|s| - 1].mtime == m then [s[|s| - 1]] else [])
  }

  /** An insertion step into a sorted list puts `x` behind every file it ties
      with. */
  lemma {:induction false} InsertTied(t: seq<FileRec>, x: FileRec, m: int)
    requires SortedNewestFirst(t)
    ensures Tied(Insert(t, x), m) == Tied(t, m) + (if x.mtime == m then [x] else [])
  {
    if t != [] {
      var init, last := t[..|t| - 1], t[|t| - 1];
      if last.mtime >= x.mtime {
        assert (t + [x])[..|t|] == t;
      } else {
        InsertTied(init, x, m);
        var r := Insert(init, x);
        assert (r + [last])[..|r|] == r;
      }
    }
  }

  /** The sort is stable: files modified at the same time keep their walk
      order, wherever they end up. */
  lemma {:induction false} NewestFirstStable(s: seq<FileRec>, m: int)
    ensures Tied(NewestFirst(s), m) == Tied(s, m)
  {
    if s != [] {
      var init := s[..|s| - 1];
      NewestFirstStable(init, m);
      NewestFirstSortsAndPermutes(init);
      InsertTied(NewestFirst(init), s[|s| - 1], m);
    }
  }

  // ---------------------------------------------------------------------------
  // Choosing what to move

  /** The file a group keeps: the first after sorting. */
  function KeptOf(g: seq<FileRec>): FileRec
    requires g != []
  {
    NewestFirst(g)[0]
  }

  /** The files a group gives up: none for a single file, otherwise all but the
      first after sorting (`files[1:]`). */
  function RestOf(g: seq<FileRec>): seq<FileRec>
  {
    if |g| > 1 then NewestFirst(g)[1..] else []
  }

  /** A group of n files keeps one and moves the other n - 1; what it keeps and
      what it moves together are the group. */
  lemma GroupSplit(g: seq<FileRec>)
    requires g != []
    ensures |RestOf(g)| == |g| - 1
    ensures multiset(RestOf(g)) + multiset{KeptOf(g)} == multiset(g)
  {
    var r := NewestFirst(g);
    NewestFirstSortsAndPermutes(g);
    assert r == [r[0]] + r[1..];
    if |g| == 1 {
      assert r[1..] == [];
    }
  }

  /** The kept file has the latest modification time of its group, and no file
      before it in walk order is as new. */
  lemma KeptIsNewest(g: seq<FileRec>)
    requires g != []
    ensures exists k :: (0 <= k < |g| && g[k] == KeptOf(g) &&
      (forall j :: 0 <= j < |g| ==> g[j].mtime <= g[k].mtime) &&
      (forall j :: 0 <= j < k ==> g[j].mtime < g[k].mtime))
  {
    HeadIsFirstNewest(g);
    var k := FirstNewest(g);
    assert g[k] == KeptOf(g);
  }

  function MoveOf(f: FileRec, dest: string): Move
  {
    Move(f.path, Join(dest, Basename(f.path)))
  }

  /** The moves for `fs`, in order. */
  function MovesOf(fs: seq<FileRec>, dest: string): seq<Move>
  {
    if fs == [] then [] else MovesOf(fs[..|fs| - 1], dest) + [MoveOf(fs[|fs| - 1], dest)]
  }

  lemma {:induction false} MovesOfAppend(a: seq<FileRec>, b: seq<FileRec>, dest: string)
    ensures MovesOf(a + b, dest) == MovesOf(a, dest) + MovesOf(b, dest)
  {
    if b == [] {
      assert a + b == a;
    } else {
      var init, last := b[..|b| - 1], b[|b| - 1];
      MovesOfAppend(a, init, dest);
      assert (a + b)[..|a + b| - 1] == a + init;
      assert (a + b)[|a + b| - 1] == last;
      calc {
        MovesOf(a + b, dest);
        MovesOf(a + init, dest) + [MoveOf(last, dest)];
        MovesOf(a, dest) + MovesOf(init, dest) + [MoveOf(last, dest)];
        MovesOf(a, dest) + MovesOf(b, dest);
      }
    }
  }

  lemma MovesOfSnoc(fs: seq<FileRec>, f: FileRec, dest: string)
    ensures MovesOf(fs + [f], dest) == MovesOf(fs, dest) + [MoveOf(f, dest)]
  {
    assert (fs + [f])[..|fs|] == fs;
  }

  /** Each move sends its file to `dest` joined with the file's base name. */
  lemma {:induction false} MovesDestination(fs: seq<FileRec>, dest: string)
    ensures |MovesOf(fs, dest)| == |fs|
    ensures forall i :: 0 <= i < |fs| ==> MovesOf(fs, dest)[i] == Move(fs[i].path, Join(dest, Basename(fs[i].path)))
  {
    if fs != [] {
      MovesDestination(fs[..|fs| - 1], dest);
    }
  }

  /** The files moved for the keys `ks`, group after group. */
  function Moved(cs: seq<Found>, ks: seq<string>): seq<FileRec>
  {
    if ks == [] then [] else Moved(cs, ks[..|ks| - 1]) + RestOf(GroupOf(cs, ks[|ks| - 1]))
  }

  /** The file kept for each key of `ks`. */
  function KeptFiles(cs: seq<Found>, ks: seq<string>): seq<FileRec>
    requires forall k :: k in ks ==> GroupOf(cs, k) != []
  {
    if ks == [] then [] else KeptFiles(cs, ks[..|ks| - 1]) + [KeptOf(GroupOf(cs, ks[|ks| - 1]))]
  }

  /** Every move the script makes, in the order it makes them. */
  function PlanMoves(cs: seq<Found>, dest: string): seq<Move>
  {
    MovesOf(Moved(cs, Digests(cs)), dest)
  }

  lemma {:induction false} KeptAndMovedSplitGroups(cs: seq<Found>, ks: seq<string>)
    requires forall k :: k in ks ==> GroupOf(cs, k) != []
    ensures |KeptFiles(cs, ks)| == |ks|
    ensures multiset(Moved(cs, ks)) + multiset(KeptFiles(cs, ks)) == multiset(ConcatGroups(cs, ks))
  {
    if ks != [] {
      var init := ks[..|ks| - 1];
      KeptAndMovedSplitGroups(cs, init);
      GroupSplit(GroupOf(cs, ks[|ks| - 1]));
    }
  }

  /** Every considered file is either kept (one per distinct digest) or moved,
      and never both. */
  lemma KeptOrMoved(cs: seq<Found>)
    ensures forall k :: k in Digests(cs) ==> GroupOf(cs, k) != []
    ensures |KeptFiles(cs, Digests(cs))| == |Digests(cs)|
    ensures multiset(Moved(cs, Digests(cs))) + multiset(KeptFiles(cs, Digests(cs))) == multiset(Files(cs))
  {
    forall k | k in Digests(cs) ensures GroupOf(cs, k) != [] {
      GroupOfPresent(cs, k);
    }
    KeptAndMovedSplitGroups(cs, Digests(cs));
    GroupsPartitionFiles(cs, Digests(cs));
  }

  lemma {:induction false} FilesLength(cs: seq<Found>)
    ensures |Files(cs)| == |cs|
  {
    if cs != [] {
      FilesLength(cs[..|cs| - 1]);
    }
  }

  /** The number of moves is the number of considered files minus the number of
      distinct digests. */
  lemma MoveCount(cs: seq<Found>, dest: string)
    ensures |PlanMoves(cs, dest)| == |cs| - |Digests(cs)|
  {
    KeptOrMoved(cs);
    FilesLength(cs);
    var m, k := Moved(cs, Digests(cs)), KeptFiles(cs, Digests(cs));
    MovesDestination(m, dest);
    assert |multiset(m + k)| == |multiset(Files(cs))|;
  }

  /** Only groups of two or more files give up files: every moved file comes
      from such a group, so a file whose digest is unique stays where it is. */
  lemma {:induction false} MovedFromDuplicateGroup(cs: seq<Found>, ks: seq<string>, f: FileRec) returns (k: string)
    requires f in Moved(cs, ks)
    ensures k in ks && |GroupOf(cs, k)| > 1 && f in GroupOf(cs, k)
  {
    var init, last := ks[..|ks| - 1], ks[|ks| - 1];
    if f in Moved(cs, init) {
      k := MovedFromDuplicateGroup(cs, init, f);
    } else {
      var g := GroupOf(cs, last);
      assert f in RestOf(g);
      NewestFirstSortsAndPermutes(g);
      assert f in multiset(NewestFirst(g));
      k := last;
    }
  }

  /** A moved file is one of the considered files. */
  lemma MovedIsConsidered(cs: seq<Found>, f: FileRec) returns (i: nat)
    requires f in Moved(cs, Digests(cs))
    ensures i < |cs| && cs[i].file == f
  {
    var k := MovedFromDuplicateGroup(cs, Digests(cs), f);
    GroupInWalkOrder(cs, k);
    var g := GroupOf(cs, k);
    var p :| 0 <= p < |g| && g[p] == f;
    i := GroupIndices(cs, k)[p];
  }

  /** Every move takes a book file found by the walk, never the script itself,
      and sends it to `dest` under its own name. */
  lemma MovesTakeConsideredBooks(walk: seq<WalkEntry>, abspath: string -> string, script: string, dest: string, m: Move)
    requires m in PlanMoves(Considered(walk, abspath, script), dest)
    ensures exists i :: 0 <= i < |walk| && m.src == PathOf(walk[i]) && IsBook(walk[i].name)
    ensures abspath(m.src) != abspath(script)
    ensures m.dst == Join(dest, Basename(m.src))
  {
    var cs := Considered(walk, abspath, script);
    var moved := Moved(cs, Digests(cs));
    MovesDestination(moved, dest);
    var j :| 0 <= j < |moved| && MovesOf(moved, dest)[j] == m;
    var f := moved[j];
    assert m.src == f.path;
    var q := MovedIsConsidered(cs, f);
    var c := cs[q];
    ConsideredExactly(walk, abspath, script, c);
    var i :| 0 <= i < |walk| && Kept(walk[i], abspath, script) && c == ToFound(walk[i]);
    assert m.src == PathOf(walk[i]);
  }

  // ---------------------------------------------------------------------------
  // The script itself

  lemma ConsideredSnoc(walk: seq<WalkEntry>, i: nat, abspath: string -> string, script: string)
    requires i < |walk|
    ensures Considered(walk[..i + 1], abspath, script) ==
      Considered(walk[..i], abspath, script) + (if Kept(walk[i], abspath, script) then [ToFound(walk[i])] else [])
  {
    assert walk[..i + 1][..i] == walk[..i];
  }

  lemma DigestsSnoc(cs: seq<Found>, f: Found)
    ensures Digests(cs + [f]) == if f.digest in Digests(cs) then Digests(cs) else Digests(cs) + [f.digest]
  {
    assert (cs + [f])[..|cs|] == cs;
  }

  /** The walk loop: filters each entry and appends it to the list of its
      digest in `hashes`, creating the list on first sight. `order` is the
      dictionary's insertion order. */
  method CollectByDigest(walk: seq<WalkEntry>, abspath: string -> string, script: string)
    returns (hashes: map<string, seq<FileRec>>, order: seq<string>)
    ensures order == Digests(Considered(walk, abspath, script))
    ensures forall h :: h in hashes <==> h in order
    ensures forall h :: h in hashes ==> hashes[h] == GroupOf(Considered(walk, abspath, script), h)
  {
    hashes, order := map[], [];
    ghost var cs: seq<Found> := [];
    for i := 0 to |walk|
      invariant cs == Considered(walk[..i], abspath, script)
      invariant order == Digests(cs)
      invariant forall h :: h in hashes <==> h in order
      invariant forall h :: h in hashes ==> hashes[h] == GroupOf(cs, h)
    {
      var e := walk[i];
      ConsideredSnoc(walk, i, abspath, script);
      if IsBook(e.name) {
        var filePath := Join(e.dir, e.name);
        if abspath(filePath) != abspath(script) {
          var d, f := e.digest, FileRec(filePath, e.mtime);
          DigestsSnoc(cs, Found(d, f));
          AddToGroups(cs, Found(d, f));
          if d in hashes {
            hashes := hashes[d := hashes[d] + [f]];
          } else {
            hashes := hashes[d := [f]];
            order := order + [d];
          }
          cs := cs + [Found(d, f)];
        }
      }
    }
    assert walk[..|walk|] == walk;
  }

  /** What appending one file does to every group: a digest seen for the first
      time starts from an empty group, and only the file's own group grows. */
  lemma AddToGroups(cs: seq<Found>, f: Found)
    ensures f.digest !in Digests(cs) ==> GroupOf(cs, f.digest) == []
    ensures forall h :: GroupOf(cs + [f], h) == GroupOf(cs, h) + (if f.digest == h then [f.file] else [])
  {
    if f.digest !in Digests(cs) {
      GroupOfAbsent(cs, f.digest);
    }
    forall h ensures GroupOf(cs + [f], h) == GroupOf(cs, h) + (if f.digest == h then [f.file] else []) {
      GroupOfSnoc(cs, f, h);
    }
  }

  /** `files.sort(key=lambda x: x[1], reverse=True)` on one group, in place: an
      insertion sort that moves a file forward only past strictly older ones,
      hence stable. */
  method SortNewestFirst(a: array<FileRec>)
    modifies a
    ensures a[..] == NewestFirst(old(a[..]))
  {
    ghost var s := a[..];
    for i := 0 to a.Length
      invariant a[..i] == NewestFirst(s[..i])
      invariant forall k :: i <= k < a.Length ==> a[k] == s[k]
    {
      ghost var sorted := a[..i];
      InsertAt(a, i);
      assert s[..i + 1] == s[..i] + [s[i]];
      assert a[..i + 1] == Insert(sorted, s[i]);
    }
    assert a[..] == a[..a.Length];
    assert s[..a.Length] == s;
  }

  /** One insertion step: slides `a[i]` into the prefix `a[..i]`. */
  method InsertAt(a: array<FileRec>, i: nat)
    requires i < a.Length
    modifies a
    ensures a[..i + 1] == Insert(old(a[..i]), old(a[i]))
    ensures forall k :: i < k < a.Length ==> a[k] == old(a[k])
  {
    var x := a[i];
    ghost var t := a[..i];
    var j := i;
    while j > 0 && a[j - 1].mtime < x.mtime
      invariant 0 <= j <= i
      invariant forall k :: 0 <= k < j ==> a[k] == t[k]
      invariant forall k :: j < k <= i ==> a[k] == t[k - 1]
      invariant forall k :: i < k < a.Length ==> a[k] == old(a[k])
      invariant forall k :: j <= k < i ==> t[k].mtime < x.mtime
    {
      a[j] := a[j - 1];
      j := j - 1;
    }
    a[j] := x;
    InsertShifted(t, j, x, a[..i + 1]);
  }

  /** Inserting `x` puts it right after the last file at least as new, with
      only strictly older files behind it. */
  lemma {:induction false} InsertPosition(t: seq<FileRec>, j: nat, x: FileRec)
    requires j <= |t|
    requires j == 0 || t[j - 1].mtime >= x.mtime
    requires forall k :: j <= k < |t| ==> t[k].mtime < x.mtime
    ensures Insert(t, x) == t[..j] + [x] + t[j..]
    decreases |t|
  {
    if j < |t| {
      var init := t[..|t| - 1];
      InsertPosition(init, j, x);
      assert init[..j] == t[..j];
      assert t[j..] == init[j..] + [t[|t| - 1]];
    } else {
      assert t[..j] == t;
    }
  }

  /** The array after the sliding loop of `InsertAt` holds `Insert(t, x)`:
      the files at least as new as `x`, then `x`, then the strictly older ones. */
  lemma InsertShifted(t: seq<FileRec>, j: nat, x: FileRec, r: seq<FileRec>)
    requires j <= |t| && |r| == |t| + 1
    requires j == 0 || t[j - 1].mtime >= x.mtime
    requires forall k :: j <= k < |t| ==> t[k].mtime < x.mtime
    requires forall k :: 0 <= k < j ==> r[k] == t[k]
    requires r[j] == x
    requires forall k :: j < k < |r| ==> r[k] == t[k - 1]
    ensures r == Insert(t, x)
  {
    InsertPosition(t, j, x);
    assert r == t[..j] + [x] + t[j..];
  }

  /** The body of the loop over `hashes.items()` for one group: nothing for a
      single file, otherwise sort newest first and move `files[1:]`. */
  method MoveGroup(files: seq<FileRec>, dest: string) returns (moves: seq<Move>)
    ensures moves == MovesOf(RestOf(files), dest)
  {
    moves := [];
    if |files| > 1 {
      var a := new FileRec[|files|](i requires 0 <= i < |files| => files[i]);
      assert a[..] == files;
      SortNewestFirst(a);
      ghost var sorted := a[..];
      for j := 1 to a.Length
        invariant a[..] == sorted
        invariant moves == MovesOf(sorted[1..j], dest)
      {
        var fileToMove := a[j].path;
        var destPath := Join(dest, Basename(fileToMove));
        MovesOfSnoc(sorted[1..j], sorted[j], dest);
        assert sorted[1..j + 1] == sorted[1..j] + [sorted[j]];
        moves := moves + [Move(fileToMove, destPath)];
      }
      assert sorted[1..a.Length] == RestOf(files);
    }
  }

  /** `find_and_move_duplicates`: the moves it makes, in order. */
  method FindAndMoveDuplicates(walk: seq<WalkEntry>, abspath: string -> string, script: string, dest: string)
    returns (moves: seq<Move>)
    ensures moves == PlanMoves(Considered(walk, abspath, script), dest)
  {
    var hashes, order := CollectByDigest(walk, abspath, script);
    ghost var cs := Considered(walk, abspath, script);
    moves := [];
    for k := 0 to |order|
      invariant moves == MovesOf(Moved(cs, order[..k]), dest)
    {
      var groupMoves := MoveGroup(hashes[order[k]], dest);
      assert order[..k + 1][..k] == order[..k];
      MovesOfAppend(Moved(cs, order[..k]), RestOf(hashes[order[k]]), dest);
      moves := moves + groupMoves;
    }
    assert order[..|order|] == order;
  }
}
