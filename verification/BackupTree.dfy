/** The DLMessageMoveFiles and DLMessageRemoveFiles operations of idevicebackup2 on the backup tree. */
module BackupTree {
  import opened Options
  import opened Backup2Format

  const ENOENT_CODE: int := -6

  /** One entry of a move dictionary, in the order the iterator delivers it; a destination that is
      not a string is None. */
  datatype Move = Move(source: Path, dest: Option<Path>)

  /** remove(newpath), then rename(oldpath, newpath); None when the source is gone by then. */
  function Renamed(tree: Tree, source: Path, dest: Path): Option<Tree> {
    var t := tree - {dest};
    if source in t then Some((t - {source})[dest := t[source]]) else None
  }

  /** The loop: the tree it leaves, and the code it reports. */
  function MoveAll(tree: Tree, moves: seq<Move>): (r: (Tree, int))
    decreases |moves|
  {
    if moves == [] then (tree, 0)
    else if moves[0].dest == None then MoveAll(tree, moves[1..])
    else
      var t := Renamed(tree, moves[0].source, moves[0].dest.value);
      if t == None then (tree - {moves[0].dest.value}, ENOENT_CODE) else MoveAll(t.value, moves[1..])
  }

  class BackupDirectory {
    var tree: Tree

    constructor (tree: Tree)
      ensures this.tree == tree
    {
      this.tree := tree;
    }

    /** remove(path) */
    method Remove(path: Path) returns (ok: bool)
      modifies this
      ensures ok <==> path in old(tree)
      ensures tree == old(tree) - {path}
    {
      ok := path in tree;
      tree := tree - {path};
    }

    /** rename(source, dest) onto a free name. */
    method Rename(source: Path, dest: Path) returns (ok: bool)
      requires dest !in tree
      modifies this
      ensures ok <==> source in old(tree)
      ensures tree == if ok then (old(tree) - {source})[dest := old(tree)[source]] else old(tree)
    {
      ok := source in tree;
      if ok {
        tree := (tree - {source})[dest := tree[source]];
      }
    }

    /** DLMessageMoveFiles */
    method MoveFiles(moves: seq<Move>) returns (errcode: int)
      modifies this
      ensures (tree, errcode) == MoveAll(old(tree), moves)
    {
      errcode := 0;
      var i := 0;
      assert moves[0..] == moves;
      while i < |moves|
        invariant i <= |moves| && errcode == 0
        invariant MoveAll(tree, moves[i..]) == MoveAll(old(tree), moves)
      {
        assert moves[i..][0] == moves[i] && moves[i..][1..] == moves[i + 1..];
        if moves[i].dest.Some? {
          var newpath := moves[i].dest.value;
          var gone := Remove(newpath);
          var ok := Rename(moves[i].source, newpath);
          if !ok {
            errcode := ENOENT_CODE;
            break;
          }
        }
        i := i + 1;
      }
    }

    /** DLMessageRemoveFiles: removes what it can; the code is 0 exactly when every path was there,
        each listed once. */
    method RemoveFiles(paths: seq<Path>) returns (errcode: int)
      modifies this
      ensures tree == old(tree) - (set p | p in paths)
      ensures errcode == 0 <==> forall i :: 0 <= i < |paths| ==> paths[i] in old(tree) && paths[i] !in paths[..i]
      ensures errcode == 0 || errcode == -6
    {
      errcode := 0;
      var i := 0;
      while i < |paths|
        invariant i <= |paths| && tree == old(tree) - (set p | p in paths[..i])
        invariant errcode == 0 || errcode == ENOENT_CODE
        invariant errcode == 0 <==> forall j :: 0 <= j < i ==> paths[j] in old(tree) && paths[j] !in paths[..j]
      {
        var ok := Remove(paths[i]);
        if !ok {
          errcode := ENOENT_CODE;
        }
        assert paths[..i + 1] == paths[..i] + [paths[i]];
        i := i + 1;
      }
      assert paths[..i] == paths;
    }
  }

  // ---------------------------------------------------------------- entry by entry

  /** A dictionary whose first entries are all done goes on with the others from the tree they leave. */
  lemma {:induction false} MovesAppend(tree: Tree, a: seq<Move>, b: seq<Move>)
    requires MoveAll(tree, a).1 == 0
    ensures MoveAll(tree, a + b) == MoveAll(MoveAll(tree, a).0, b)
    decreases |a|
  {
    if a == [] {
      assert a + b == b;
    } else {
      assert (a + b)[1..] == a[1..] + b;
      if a[0].dest.None? {
        MovesAppend(tree, a[1..], b);
      } else {
        MovesAppend(Renamed(tree, a[0].source, a[0].dest.value).value, a[1..], b);
      }
    }
  }

  /** The entry after them.  Without a destination it is passed over.  With one, whatever has the destination
      is removed; if the source is there after that, it gets the destination's name with its content, and if
      it is not, the code is -6 and no later entry is looked at. */
  lemma {:induction false} NextEntry(tree: Tree, front: seq<Move>, m: Move, later: seq<Move>)
    requires MoveAll(tree, front).1 == 0
    ensures var t, r := MoveAll(tree, front).0, MoveAll(tree, front + [m] + later);
      && (m.dest.None? ==> r == MoveAll(t, later))
      && (m.dest.Some? && (m.source !in t || m.source == m.dest.value) ==> r == (t - {m.dest.value}, -6))
      && (m.dest.Some? && m.source in t && m.source != m.dest.value ==>
            r == MoveAll((t - {m.source})[m.dest.value := t[m.source]], later))
  {
    var t := MoveAll(tree, front).0;
    assert front + [m] + later == front + ([m] + later) && ([m] + later)[1..] == later;
    MovesAppend(tree, front, [m] + later);
    if m.dest.Some? && m.source in t && m.source != m.dest.value {
      var d := t - {m.dest.value};
      assert (d - {m.source})[m.dest.value := d[m.source]] == (t - {m.source})[m.dest.value := t[m.source]];
    }
  }

  // ---------------------------------------------------------------- simultaneous renaming

  /** All entries are renames. */
  predicate AllNamed(moves: seq<Move>) {
    forall i :: 0 <= i < |moves| ==> moves[i].dest.Some?
  }

  function Sources(moves: seq<Move>): set<Path> {
    set i | 0 <= i < |moves| :: moves[i].source
  }

  function Dests(moves: seq<Move>): set<Path>
    requires AllNamed(moves)
  {
    set i | 0 <= i < |moves| :: moves[i].dest.value
  }

  /** A dictionary has every source once; here the destinations are distinct too. */
  predicate Distinct(moves: seq<Move>) {
    forall i, j :: 0 <= i < j < |moves| ==> moves[i].source != moves[j].source && moves[i].dest != moves[j].dest
  }

  /** The tree with all files renamed at once: every destination has its source's old content, other
      paths keep theirs unless they are sources. */
  ghost predicate Simultaneous(tree: Tree, moves: seq<Move>, result: Tree)
    requires AllNamed(moves) && Sources(moves) <= tree.Keys
  {
    && result.Keys == (tree.Keys - Sources(moves)) + Dests(moves)
    && (forall i :: 0 <= i < |moves| ==>
      moves[i].dest.value in result && result[moves[i].dest.value] == tree[moves[i].source])
    && (forall p :: p in tree && p !in Sources(moves) && p !in Dests(moves) ==> p in result && result[p] == tree[p])
  }

  /** No destination is the source of this or a later rename. */
  predicate NoLaterSource(moves: seq<Move>)
    requires AllNamed(moves)
  {
    forall i, j :: 0 <= i <= j < |moves| ==> moves[i].dest.value != moves[j].source
  }

  lemma {:induction false} TailOf(moves: seq<Move>)
    requires moves != [] && AllNamed(moves) && Distinct(moves)
    ensures AllNamed(moves[1..]) && Distinct(moves[1..])
    ensures Sources(moves) == {moves[0].source} + Sources(moves[1..])
    ensures Dests(moves) == {moves[0].dest.value} + Dests(moves[1..])
    ensures moves[0].source !in Sources(moves[1..]) && moves[0].dest.value !in Dests(moves[1..])
    ensures NoLaterSource(moves) <==>
      NoLaterSource(moves[1..]) && moves[0].dest.value != moves[0].source && moves[0].dest.value !in Sources(moves[1..])
  {
    var rest := moves[1..];
    assert forall i :: 0 < i < |moves| ==> moves[i] == rest[i - 1];
    assert forall i :: 0 <= i < |rest| ==> rest[i] == moves[i + 1];
    assert moves[0].source in Sources(moves) && moves[0].dest.value in Dests(moves);
  }

  lemma {:induction false} MovesAtOnce(tree: Tree, moves: seq<Move>)
    requires AllNamed(moves) && Distinct(moves) && Sources(moves) <= tree.Keys && NoLaterSource(moves)
    ensures MoveAll(tree, moves).1 == 0 && Simultaneous(tree, moves, MoveAll(tree, moves).0)
    decreases |moves|
  {
    if moves != [] {
      var t := FirstMove(tree, moves);
      MovesAtOnce(t, moves[1..]);
      FirstThenRest(tree, moves, t, MoveAll(t, moves[1..]).0);
    }
  }

  lemma {:induction false} FirstMove(tree: Tree, moves: seq<Move>) returns (t: Tree)
    requires moves != [] && AllNamed(moves) && Distinct(moves) && Sources(moves) <= tree.Keys && NoLaterSource(moves)
    ensures Renamed(tree, moves[0].source, moves[0].dest.value) == Some(t)
    ensures MoveAll(tree, moves) == MoveAll(t, moves[1..])
    ensures var rest := moves[1..]; AllNamed(rest) && Distinct(rest) && Sources(rest) <= t.Keys && NoLaterSource(rest)
  {
    TailOf(moves);
    assert moves[0].source in Sources(moves);
    t := Renamed(tree, moves[0].source, moves[0].dest.value).value;
  }

  lemma {:induction false} FirstThenRest(tree: Tree, moves: seq<Move>, t: Tree, result: Tree)
    requires moves != [] && AllNamed(moves) && Distinct(moves) && Sources(moves) <= tree.Keys && NoLaterSource(moves)
    requires Renamed(tree, moves[0].source, moves[0].dest.value) == Some(t)
    requires AllNamed(moves[1..]) && Sources(moves[1..]) <= t.Keys && Simultaneous(t, moves[1..], result)
    ensures Simultaneous(tree, moves, result)
  {
    TailOf(moves);
    var rest := moves[1..];
    forall i | 0 <= i < |moves|
      ensures moves[i].dest.value in result && result[moves[i].dest.value] == tree[moves[i].source]
    {
      if i > 0 {
        assert rest[i - 1] == moves[i];
        assert moves[i].source in Sources(rest);
      }
    }
  }

  lemma {:induction false} NeverAdded(tree: Tree, moves: seq<Move>, p: Path)
    requires AllNamed(moves) && p !in tree && p !in Dests(moves)
    ensures p !in MoveAll(tree, moves).0
    decreases |moves|
  {
    if moves != [] {
      assert moves[0].dest.value in Dests(moves);
      assert forall i :: 0 <= i < |moves[1..]| ==> moves[1..][i] == moves[i + 1];
      var t := Renamed(tree, moves[0].source, moves[0].dest.value);
      if t.Some? {
        NeverAdded(t.value, moves[1..], p);
      }
    }
  }

  /** After a loop without error, a source that no later rename fills is gone. */
  lemma {:induction false} SourceGone(tree: Tree, moves: seq<Move>, j: nat)
    requires AllNamed(moves) && j < |moves| && MoveAll(tree, moves).1 == 0
    requires forall k :: j <= k < |moves| ==> moves[k].dest.value != moves[j].source
    ensures moves[j].source !in MoveAll(tree, moves).0
    decreases |moves|
  {
    var rest := moves[1..];
    assert forall i :: 0 <= i < |rest| ==> rest[i] == moves[i + 1];
    var t := Renamed(tree, moves[0].source, moves[0].dest.value).value;
    if j == 0 {
      NeverAdded(t, rest, moves[0].source);
    } else {
      SourceGone(t, rest, j - 1);
    }
  }

  lemma {:induction false} SelfMoveFails(tree: Tree, moves: seq<Move>, i: nat)
    requires AllNamed(moves) && i < |moves| && moves[i].dest.value == moves[i].source
    ensures MoveAll(tree, moves).1 != 0
    decreases |moves|
  {
    var t := Renamed(tree, moves[0].source, moves[0].dest.value);
    if i > 0 && t.Some? {
      assert moves[1..][i - 1] == moves[i];
      SelfMoveFails(t.value, moves[1..], i - 1);
    }
  }

  /** For any order of the entries: the loop reports 0 and renames all files at once if and only if
      no destination is the source of the same or a later entry. */
  lemma {:induction false} MoveFilesExactly(tree: Tree, moves: seq<Move>)
    requires AllNamed(moves) && Distinct(moves) && Sources(moves) <= tree.Keys
    ensures MoveAll(tree, moves).1 == 0 && Simultaneous(tree, moves, MoveAll(tree, moves).0) <==> NoLaterSource(moves)
  {
    if NoLaterSource(moves) {
      MovesAtOnce(tree, moves);
    } else {
      var i, j :| 0 <= i <= j < |moves| && moves[i].dest.value == moves[j].source;
      if i == j {
        SelfMoveFails(tree, moves, i);
      } else if MoveAll(tree, moves).1 == 0 {
        forall k | j <= k < |moves|
          ensures moves[k].dest.value != moves[j].source
        {
          assert moves[i].dest != moves[k].dest;
        }
        SourceGone(tree, moves, j);
      }
    }
  }

  /** When sources and destinations are disjoint this holds for every order the iterator may choose,
      and all orders leave the same tree. */
  lemma {:induction false} AnyOrder(tree: Tree, moves: seq<Move>, moves': seq<Move>)
    requires AllNamed(moves) && Distinct(moves) && Sources(moves) <= tree.Keys && Sources(moves) !! Dests(moves)
    requires AllNamed(moves') && Distinct(moves') && multiset(moves) == multiset(moves')
    ensures MoveAll(tree, moves).1 == 0 && Simultaneous(tree, moves, MoveAll(tree, moves).0)
    ensures MoveAll(tree, moves') == MoveAll(tree, moves)
  {
    SameSets(moves, moves');
    SameSets(moves', moves);
    DisjointIsFine(moves);
    DisjointIsFine(moves');
    MovesAtOnce(tree, moves);
    MovesAtOnce(tree, moves');
    OneResult(tree, moves, moves', MoveAll(tree, moves).0, MoveAll(tree, moves').0);
  }

  lemma {:induction false} Reordered(moves: seq<Move>, moves': seq<Move>, i: nat) returns (j: nat)
    requires multiset(moves) == multiset(moves') && i < |moves|
    ensures j < |moves'| && moves'[j] == moves[i]
  {
    assert moves[i] in multiset(moves');
    j :| 0 <= j < |moves'| && moves'[j] == moves[i];
  }

  lemma {:induction false} OneResult(tree: Tree, moves: seq<Move>, moves': seq<Move>, a: Tree, b: Tree)
    requires AllNamed(moves) && AllNamed(moves') && multiset(moves) == multiset(moves')
    requires Sources(moves) <= tree.Keys && Sources(moves) == Sources(moves') && Dests(moves) == Dests(moves')
    requires Simultaneous(tree, moves, a) && Simultaneous(tree, moves', b)
    ensures a == b
  {
    forall p | p in a
      ensures a[p] == b[p]
    {
      if p in Dests(moves) {
        var i :| 0 <= i < |moves| && moves[i].dest.value == p;
        var j := Reordered(moves, moves', i);
      }
    }
  }

  lemma {:induction false} SameSets(moves: seq<Move>, moves': seq<Move>)
    requires AllNamed(moves) && AllNamed(moves') && multiset(moves) == multiset(moves')
    ensures Sources(moves) <= Sources(moves') && Dests(moves) <= Dests(moves')
  {
    forall i | 0 <= i < |moves|
      ensures moves[i].source in Sources(moves') && moves[i].dest.value in Dests(moves')
    {
      var j := Reordered(moves, moves', i);
    }
  }

  lemma {:induction false} DisjointIsFine(moves: seq<Move>)
    requires AllNamed(moves) && Sources(moves) !! Dests(moves)
    ensures NoLaterSource(moves)
  {
    forall i, j | 0 <= i <= j < |moves|
      ensures moves[i].dest.value != moves[j].source
    {
      assert moves[i].dest.value in Dests(moves) && moves[j].source in Sources(moves);
    }
  }

  /** Only files at overwritten destinations are lost: every other content survives a clean run. */
  lemma {:induction false} NothingElseLost(tree: Tree, moves: seq<Move>, p: Path)
    requires AllNamed(moves) && Distinct(moves) && Sources(moves) <= tree.Keys && NoLaterSource(moves)
    requires p in tree && (p !in Dests(moves) || p in Sources(moves))
    ensures exists q :: q in MoveAll(tree, moves).0 && MoveAll(tree, moves).0[q] == tree[p]
  {
    MovesAtOnce(tree, moves);
    if p in Sources(moves) {
      var i :| 0 <= i < |moves| && moves[i].source == p;
      assert moves[i].dest.value in MoveAll(tree, moves).0;
    }
  }
}
