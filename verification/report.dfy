/** What the report lists: the non-hidden files of the working tree, each with
    its impact fraction. The directory walk, its sorting and the HTML are
    outside this model; the walk's output is given as a sequence of entries. */
module Report {
  import opened Wrappers
  import opened TouchedLines
  import opened Aggregate
  import opened Impact

  /** An entry is hidden when its file name starts with a dot. A name that is
      not valid Unicode (`None`) is never hidden. */
  function IsHidden(name: Option<string>): (hidden: bool)
    ensures hidden <==> name.Some? && "." <= name.value
  {
    match name
    case None => false
    case Some(s) => |s| > 0 && s[0] == '.'
  }

  /** One entry the walk reaches: the file names from the walk's root down to
      the entry itself, whether it is a directory, and its path relative to
      the root. `names[0]` is the root's own name as the walk reports it: its
      last path component, or the whole path when it has none, so a root given
      as `.` is named `.`. The hidden filter applies to the root as well. */
  datatype WalkEntry = WalkEntry(names: seq<Option<string>>, isDir: bool, relPath: Path)

  /** The walk skips hidden entries and everything below a hidden directory,
      and the report drops directories. */
  predicate Listed(e: WalkEntry) {
    !e.isDir && forall i :: 0 <= i < |e.names| ==> !IsHidden(e.names[i])
  }

  /** The paths the report lists, in walk order. */
  function ReportPaths(es: seq<WalkEntry>): (ps: seq<Path>)
    ensures |ps| <= |es|
  {
    if |es| == 0 then [] else Contribution(es[0]) + ReportPaths(es[1..])
  }

  /** What one entry adds to the report: its path when it is listed. */
  function Contribution(e: WalkEntry): seq<Path> {
    if Listed(e) then [e.relPath] else []
  }

  /** A path is listed exactly when some non-directory entry with that path
      has no hidden name on the way down from the root. */
  lemma {:induction false} ReportPathsListed(es: seq<WalkEntry>, p: Path)
    ensures p in ReportPaths(es) <==> exists i :: 0 <= i < |es| && Listed(es[i]) && es[i].relPath == p
  {
    if |es| > 0 {
      ReportPathsListed(es[1..], p);
      if p in ReportPaths(es[1..]) {
        var i :| 0 <= i < |es[1..]| && Listed(es[1..][i]) && es[1..][i].relPath == p;
        assert es[i + 1] == es[1..][i];
      }
      if exists i :: 0 <= i < |es| && Listed(es[i]) && es[i].relPath == p {
        var i :| 0 <= i < |es| && Listed(es[i]) && es[i].relPath == p;
        if i > 0 {
          assert es[1..][i - 1] == es[i];
        }
      }
    }
  }

  /** The report is empty exactly when no entry of the walk is listed. */
  lemma {:induction false} ReportPathsEmpty(es: seq<WalkEntry>)
    ensures ReportPaths(es) == [] <==> forall j :: 0 <= j < |es| ==> !Listed(es[j])
  {
    if |es| > 0 {
      ReportPathsEmpty(es[1..]);
      if ReportPaths(es) == [] {
        assert forall j :: 1 <= j < |es| ==> es[j] == es[1..][j - 1];
      } else if !Listed(es[0]) {
        var j :| 0 <= j < |es[1..]| && Listed(es[1..][j]);
        assert es[j + 1] == es[1..][j];
      }
    }
  }

  /** The walk's order is kept: listing a walk in two parts lists each part
      in turn. */
  lemma {:induction false} ReportPathsAppend(a: seq<WalkEntry>, b: seq<WalkEntry>)
    ensures ReportPaths(a + b) == ReportPaths(a) + ReportPaths(b)
  {
    if |a| == 0 {
      assert a + b == b;
    } else {
      assert (a + b)[0] == a[0] && (a + b)[1..] == a[1..] + b;
      ReportPathsAppend(a[1..], b);
      var c, r := Contribution(a[0]), ReportPaths(a[1..]);
      assert ReportPaths(a + b) == c + (r + ReportPaths(b));
      assert c + (r + ReportPaths(b)) == (c + r) + ReportPaths(b);
    }
  }

  /** When every entry is listed, the report lists every path, in walk order. */
  lemma {:induction false} ReportPathsAllListed(es: seq<WalkEntry>)
    requires forall j :: 0 <= j < |es| ==> Listed(es[j])
    ensures |ReportPaths(es)| == |es|
    ensures forall j :: 0 <= j < |es| ==> ReportPaths(es)[j] == es[j].relPath
  {
    if |es| > 0 {
      assert forall j :: 0 <= j < |es[1..]| ==> es[1..][j] == es[j + 1];
      ReportPathsAllListed(es[1..]);
    }
  }

  /** A walk whose root is named `.` lists nothing: the root itself is hidden,
      so the walk does not descend into it. */
  lemma DotRootListsNothing(es: seq<WalkEntry>)
    requires forall j :: 0 <= j < |es| ==> |es[j].names| > 0 && es[j].names[0] == Some(".")
    ensures ReportPaths(es) == []
  {
    ReportPathsEmpty(es);
    forall j | 0 <= j < |es|
      ensures !Listed(es[j])
    {
      assert IsHidden(es[j].names[0]);
    }
  }

  /** One line of the report: a file and the fraction its colour encodes. */
  datatype Row = Row(path: Path, fraction: real)

  /** What the report shows for a walk: one row per listed file in walk
      order, each with a fraction in [0,1] that is the share of pull requests
      not touching the file, 1 exactly when none does and 0 exactly when all
      do, and more touching pull requests never give a larger fraction. */
  predicate RowsReport(rows: seq<Row>, es: seq<WalkEntry>, lookup: Lookup)
    requires |lookup| > 0
  {
    && |rows| == |ReportPaths(es)|
    && (forall i :: 0 <= i < |rows| ==> rows[i].path == ReportPaths(es)[i])
    && (forall i :: 0 <= i < |rows| ==> 0.0 <= rows[i].fraction <= 1.0)
    && (forall i :: 0 <= i < |rows| ==> rows[i].fraction == UntouchedShare(rows[i].path, lookup))
    && (forall i :: 0 <= i < |rows| ==>
          (rows[i].fraction == 1.0 <==> TouchingPrs(rows[i].path, lookup) == {}))
    && (forall i :: 0 <= i < |rows| ==>
          (rows[i].fraction == 0.0 <==> TouchingPrs(rows[i].path, lookup) == lookup.Keys))
    && (forall i, j :: 0 <= i < |rows| && 0 <= j < |rows| ==>
          (TouchCount(rows[i].path, lookup) <= TouchCount(rows[j].path, lookup) ==>
             rows[j].fraction <= rows[i].fraction))
  }

  /** The report's rows. */
  function ReportRows(es: seq<WalkEntry>, lookup: Lookup): (rows: seq<Row>)
    requires |lookup| > 0
    ensures RowsReport(rows, es, lookup)
  {
    var ps := ReportPaths(es);
    FractionsAntitone(ps, lookup);
    seq(|ps|, i requires 0 <= i < |ps| => RowOf(ps[i], lookup))
  }

  /** The row of one file: its fraction lies in [0,1], is the share of pull
      requests not touching it, and is 1 or 0 exactly when none or all do. */
  function RowOf(path: Path, lookup: Lookup): (row: Row)
    requires |lookup| > 0
    ensures row.path == path && row.fraction == Fraction(path, lookup)
    ensures 0.0 <= row.fraction <= 1.0
    ensures row.fraction == 1.0 <==> TouchingPrs(path, lookup) == {}
    ensures row.fraction == 0.0 <==> TouchingPrs(path, lookup) == lookup.Keys
    ensures row.fraction == UntouchedShare(path, lookup)
  {
    FractionIsUntouchedShare(path, lookup);
    Row(path, Fraction(path, lookup))
  }

  /** Over any list of paths, more touching pull requests never means a larger
      fraction. */
  lemma FractionsAntitone(ps: seq<Path>, lookup: Lookup)
    requires |lookup| > 0
    ensures forall i, j :: 0 <= i < |ps| && 0 <= j < |ps| ==>
      (TouchCount(ps[i], lookup) <= TouchCount(ps[j], lookup) ==>
         Fraction(ps[j], lookup) <= Fraction(ps[i], lookup))
  {
    forall i, j | 0 <= i < |ps| && 0 <= j < |ps| && TouchCount(ps[i], lookup) <= TouchCount(ps[j], lookup)
      ensures Fraction(ps[j], lookup) <= Fraction(ps[i], lookup)
    {
      FractionAntitone(ps[i], ps[j], lookup);
    }
  }
}
