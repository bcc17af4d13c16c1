/** The diff-hunk callback of the aggregation loop: the hunks of one pull
    request's diff, in the order the diff reports them, become a map from each
    file's old-side path to the old-side line numbers its hunks cover. */
module TouchedLines {
  import opened Wrappers

  /** A repository-relative file path. */
  type Path = string

  /** Old-side line numbers per file, in recording order, duplicates kept. */
  type LineMap = map<Path, seq<nat>>

  /** One diff hunk as the callback sees it: the old-side path of its file
      (absent when the old file has none) and its old-side line range. */
  datatype Hunk = Hunk(oldPath: Option<Path>, oldStart: nat, oldLines: nat)

  /** Files whose changes are mechanical and carry no review-overlap signal. */
  const IgnoredFiles: seq<Path> := ["Cargo.lock"]

  /** The line numbers `start, start + 1, ..., start + count - 1`. */
  function Range(start: nat, count: nat): (r: seq<nat>)
    ensures |r| == count
    ensures forall i :: 0 <= i < count ==> r[i] == start + i
    ensures forall x :: x in r <==> start <= x < start + count
    decreases count
  {
    if count == 0 then [] else [start] + Range(start + 1, count - 1)
  }

  /** The path a hunk is recorded under, or `None` when the callback skips it:
      no old-side path, an empty old-side range, or an ignored file. */
  function Key(h: Hunk): (k: Option<Path>)
    ensures k.None? <==> h.oldPath.None? || h.oldLines == 0 || h.oldPath == Some("Cargo.lock")
    ensures k.Some? ==> k == h.oldPath && |Range(h.oldStart, h.oldLines)| > 0
  {
    if h.oldPath.Some? && h.oldLines != 0 && h.oldPath.value !in IgnoredFiles
    then Some(h.oldPath.value)
    else None
  }

  /** The entry of `p`, empty when `p` has none. */
  function Lines(m: LineMap, p: Path): seq<nat> {
    if p in m then m[p] else []
  }

  /** Hunk `h` is recorded under `p` and its old-side range contains `line`. */
  predicate Covers(h: Hunk, p: Path, line: nat) {
    Key(h) == Some(p) && h.oldStart <= line < h.oldStart + h.oldLines
  }

  /** One invocation of the hunk callback. */
  function AddHunk(m: LineMap, h: Hunk): (m': LineMap)
    ensures Key(h).None? ==> m' == m
    ensures Key(h).Some? ==>
      && m'.Keys == m.Keys + {Key(h).value}
      && Lines(m', Key(h).value) == Lines(m, Key(h).value) + Range(h.oldStart, h.oldLines)
    ensures forall p :: p in m && Key(h) != Some(p) ==> p in m' && m'[p] == m[p]
    ensures forall p, line :: line in Lines(m', p) <==> line in Lines(m, p) || Covers(h, p, line)
  {
    match Key(h)
    case None => m
    case Some(p) => m[p := Lines(m, p) + Range(h.oldStart, h.oldLines)]
  }

  /** The map the callback has built after seeing all of `hs`, in order. */
  function Collect(hs: seq<Hunk>): (m: LineMap)
    ensures forall p :: p in m ==> p !in IgnoredFiles
  {
    if |hs| == 0 then map[] else AddHunk(Collect(hs[..|hs| - 1]), hs[|hs| - 1])
  }

  /** What the hunks contribute to `p`'s entry, defined front to back. */
  function LinesFor(hs: seq<Hunk>, p: Path): seq<nat> {
    if |hs| == 0 then []
    else (if Key(hs[0]) == Some(p) then Range(hs[0].oldStart, hs[0].oldLines) else [])
         + LinesFor(hs[1..], p)
  }

  /** The diff walk as the program runs it: a loop over the hunks that updates
      one mutable map. */
  method CollectTouched(hs: seq<Hunk>) returns (m: LineMap)
    ensures m == Collect(hs)
    ensures forall p :: p in m ==> p !in IgnoredFiles
  {
    m := map[];
    var i := 0;
    while i < |hs|
      invariant 0 <= i <= |hs|
      invariant m == Collect(hs[..i])
    {
      assert hs[..i + 1][..i] == hs[..i];
      m := AddHunk(m, hs[i]);
      i := i + 1;
    }
    assert hs[..i] == hs;
  }

  /** A path is a key exactly when some hunk is recorded under it. */
  lemma {:induction false} CollectKeys(hs: seq<Hunk>)
    ensures forall p :: p in Collect(hs) <==> exists i :: 0 <= i < |hs| && Key(hs[i]) == Some(p)
  {
    if |hs| > 0 {
      var init := hs[..|hs| - 1];
      CollectKeys(init);
      forall p
        ensures p in Collect(hs) <==> exists i :: 0 <= i < |hs| && Key(hs[i]) == Some(p)
      {
        if p in Collect(init) {
          var i :| 0 <= i < |init| && Key(init[i]) == Some(p);
          assert Key(hs[i]) == Some(p);
        }
        if exists i :: 0 <= i < |hs| && Key(hs[i]) == Some(p) {
          var i :| 0 <= i < |hs| && Key(hs[i]) == Some(p);
          if i < |init| {
            assert Key(init[i]) == Some(p);
          }
        }
      }
    }
  }

  /** Every recorded line comes from a hunk of `p` that covers it. */
  lemma {:induction false} CollectCoversSound(hs: seq<Hunk>, p: Path, line: nat)
    requires line in Lines(Collect(hs), p)
    ensures exists i :: 0 <= i < |hs| && Covers(hs[i], p, line)
  {
    var init := hs[..|hs| - 1];
    if line in Lines(Collect(init), p) {
      CollectCoversSound(init, p, line);
      var i :| 0 <= i < |init| && Covers(init[i], p, line);
      assert hs[i] == init[i];
    } else {
      assert Covers(hs[|hs| - 1], p, line);
    }
  }

  /** Every line a recorded hunk of `p` covers is in `p`'s entry. */
  lemma {:induction false} CollectCoversComplete(hs: seq<Hunk>, p: Path, line: nat, i: nat)
    requires i < |hs| && Covers(hs[i], p, line)
    ensures line in Lines(Collect(hs), p)
  {
    var init := hs[..|hs| - 1];
    if i < |init| {
      assert init[i] == hs[i];
      CollectCoversComplete(init, p, line, i);
    }
  }

  /** A line is in `p`'s entry exactly when some recorded hunk of `p` covers it. */
  lemma CollectCovers(hs: seq<Hunk>, p: Path, line: nat)
    ensures line in Lines(Collect(hs), p) <==> exists i :: 0 <= i < |hs| && Covers(hs[i], p, line)
  {
    if line in Lines(Collect(hs), p) {
      CollectCoversSound(hs, p, line);
    }
    if exists i :: 0 <= i < |hs| && Covers(hs[i], p, line) {
      var i :| 0 <= i < |hs| && Covers(hs[i], p, line);
      CollectCoversComplete(hs, p, line, i);
    }
  }

  lemma {:induction false} LinesForSnoc(hs: seq<Hunk>, h: Hunk, p: Path)
    ensures LinesFor(hs + [h], p)
         == LinesFor(hs, p) + (if Key(h) == Some(p) then Range(h.oldStart, h.oldLines) else [])
  {
    if |hs| > 0 {
      assert (hs + [h])[1..] == hs[1..] + [h];
      LinesForSnoc(hs[1..], h, p);
    }
  }

  /** `p`'s entry is the ranges of its recorded hunks, concatenated in diff
      order, with nothing merged or removed. */
  lemma {:induction false} CollectEntries(hs: seq<Hunk>, p: Path)
    ensures Lines(Collect(hs), p) == LinesFor(hs, p)
  {
    if |hs| > 0 {
      var init := hs[..|hs| - 1];
      var h := hs[|hs| - 1];
      CollectEntries(init, p);
      LinesForSnoc(init, h, p);
      assert init + [h] == hs;
    }
  }

  /** A hunk the callback skips leaves the map as it was. */
  lemma SkippedHunkChangesNothing(hs: seq<Hunk>, h: Hunk)
    requires Key(h).None?
    ensures Collect(hs + [h]) == Collect(hs)
  {
    assert (hs + [h])[..|hs|] == hs;
  }

  /** An ignored file is never a key, whatever the diff says about it. */
  lemma IgnoredNeverRecorded(hs: seq<Hunk>)
    ensures "Cargo.lock" !in Collect(hs)
  {
  }

  /** The hunk `-10,3` of one file records lines 10, 11 and 12; a second
      identical hunk records them again. */
  lemma RecordsOldSideRange()
    ensures Collect([Hunk(Some("src/main.rs"), 10, 3)]) == map["src/main.rs" := [10, 11, 12]]
    ensures Lines(Collect([Hunk(Some("src/main.rs"), 10, 3), Hunk(Some("src/main.rs"), 10, 3)]), "src/main.rs")
         == [10, 11, 12, 10, 11, 12]
  {
    var h := Hunk(Some("src/main.rs"), 10, 3);
    assert Range(10, 3) == [10, 11, 12];
    assert "src/main.rs"[0] != "Cargo.lock"[0];
    assert Key(h) == Some("src/main.rs");
    assert [h][..0] == [];
    assert Collect([h]) == AddHunk(map[], h);
    assert Lines(map[], "src/main.rs") == [];
    assert AddHunk(map[], h) == map["src/main.rs" := [] + Range(10, 3)];
    assert [] + Range(10, 3) == [10, 11, 12];
    assert [h, h][..1] == [h];
  }

  /** A pure insertion (`-0,0`) records nothing. */
  lemma InsertionRecordsNothing(p: Path, start: nat)
    ensures Collect([Hunk(Some(p), start, 0)]) == map[]
  {
  }
}
