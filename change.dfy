/** What ecs-url-to-csv.py counts as a change between the cached snapshot
    (`OLD`) and the downloaded one (`NEW`): a different number of rows, the
    ECS version comparison of `_ECS_Version_changed`, or a downloaded row
    that the cached snapshot does not hold. Both snapshots are `None` until
    the cache is loaded. */
module ChangeDetector {
  import opened Wrappers
  import opened Records
  import opened SchemaReader

  const VersionKey: string := "ECS_Version"

  /** `_length_changed`: no new snapshot is never a change, a missing old one
      always is, otherwise the row counts are compared. */
  function LengthChanged(oldRows: Option<Snapshot>, newRows: Option<Snapshot>): bool
  {
    if newRows.None? then false
    else if oldRows.None? then true
    else |oldRows.value| != |newRows.value|
  }

  lemma LengthChangedSpec(oldRows: Option<Snapshot>, newRows: Option<Snapshot>)
    ensures newRows.None? ==> !LengthChanged(oldRows, newRows)
    ensures newRows.Some? && oldRows.None? ==> LengthChanged(oldRows, newRows)
    ensures oldRows.Some? && newRows.Some? ==>
      (LengthChanged(oldRows, newRows) <==> |oldRows.value| != |newRows.value|)
  {
  }

  /** `[x["ECS_Version"] for x in rows]`; iterating `None` raises `TypeError`. */
  function Versions(rows: Option<Snapshot>): Result<seq<Value>>
  {
    if rows.None? then Err(TypeError) else Column(rows.value, VersionKey)
  }

  /** The set of versions of a snapshot whose rows all carry one. */
  function VersionSet(rows: Option<Snapshot>): set<Value>
    requires Versions(rows).Ok?
  {
    set v | v in Versions(rows).value
  }

  /** Some version of `os` differs from some version of `ns`: what the
      nested loops of `_ECS_Version_changed` look for. */
  predicate AnyPairDiffers(os: seq<Value>, ns: seq<Value>)
  {
    exists i, j :: 0 <= i < |os| && 0 <= j < |ns| && os[i] != ns[j]
  }

  /** `_ECS_Version_changed` as the code computes it: the version sets of
      different sizes are a change, and otherwise a change is any pair of an
      old and a new version that differ. */
  function VersionChanged(oldRows: Option<Snapshot>, newRows: Option<Snapshot>): Result<bool>
  {
    var o :- Versions(oldRows);
    var n :- Versions(newRows);
    var os, ns := Distinct(o), Distinct(n);
    if |os| != |ns| then Ok(true) else Ok(AnyPairDiffers(os, ns))
  }

  /** Two duplicate-free enumerations of the same length have a differing
      pair exactly when they do not enumerate one and the same set of at
      most one element. */
  lemma PairwiseComparison(os: seq<Value>, ns: seq<Value>)
    requires NoDup(os) && NoDup(ns) && |os| == |ns|
    ensures AnyPairDiffers(os, ns) <==> !((set x | x in os) == (set x | x in ns) && |os| <= 1)
  {
    if |os| == 1 {
      assert (set x | x in os) == {os[0]};
      assert (set x | x in ns) == {ns[0]};
      if os[0] != ns[0] {
        assert AnyPairDiffers(os, ns);
      }
    } else if |os| > 1 {
      assert ns[0] != ns[1];
      if os[0] == ns[0] {
        assert os[0] != ns[1];
      } else {
        assert os[0] != ns[0];
      }
    }
  }

  /** What the version comparison decides, stated on the two sets: no change
      exactly when the old and new snapshots carry the same versions and at
      most one of them. So two snapshots that both carry the same two or more
      versions still count as changed. */
  lemma VersionChangedMeaning(oldRows: Option<Snapshot>, newRows: Option<Snapshot>)
    requires Versions(oldRows).Ok? && Versions(newRows).Ok?
    ensures VersionChanged(oldRows, newRows)
         == Ok(!(VersionSet(oldRows) == VersionSet(newRows) && |VersionSet(oldRows)| <= 1))
  {
    var o, n := Versions(oldRows).value, Versions(newRows).value;
    var os, ns := Distinct(o), Distinct(n);
    DistinctCard(o);
    DistinctCard(n);
    assert VersionSet(oldRows) == set x | x in os;
    assert VersionSet(newRows) == set x | x in ns;
    if |os| == |ns| {
      PairwiseComparison(os, ns);
    }
  }

  /** The cases of the version comparison one by one: different numbers of
      versions are a change, two version-less snapshots are not, two
      single-version snapshots are a change exactly when the versions differ,
      and equally many versions, two or more, are always a change. */
  lemma VersionChangedCases(oldRows: Option<Snapshot>, newRows: Option<Snapshot>)
    requires Versions(oldRows).Ok? && Versions(newRows).Ok?
    ensures |VersionSet(oldRows)| != |VersionSet(newRows)| ==> VersionChanged(oldRows, newRows) == Ok(true)
    ensures VersionSet(oldRows) == {} && VersionSet(newRows) == {} ==> VersionChanged(oldRows, newRows) == Ok(false)
    ensures forall a, b :: VersionSet(oldRows) == {a} && VersionSet(newRows) == {b} ==>
      VersionChanged(oldRows, newRows) == Ok(a != b)
    ensures |VersionSet(oldRows)| == |VersionSet(newRows)| >= 2 ==> VersionChanged(oldRows, newRows) == Ok(true)
  {
    VersionChangedMeaning(oldRows, newRows);
  }

  /** Which versions raise: the old snapshot is listed first. */
  lemma VersionChangedRaises(oldRows: Option<Snapshot>, newRows: Option<Snapshot>)
    ensures VersionChanged(oldRows, newRows).Err? <==> Versions(oldRows).Err? || Versions(newRows).Err?
    ensures VersionChanged(oldRows, newRows).Err? ==>
      VersionChanged(oldRows, newRows).error
        == if Versions(oldRows).Err? then Versions(oldRows).error else Versions(newRows).error
    ensures oldRows.None? ==> VersionChanged(oldRows, newRows) == Err(TypeError)
  {
  }

  /** `_lines_changed`: a downloaded row that no cached row equals. Rows are
      compared through `hash(str(row))`, which the model takes to be
      injective: two rows compare equal exactly when they hold the same
      entries in the same order, as `str` of a dict does. */
  function LinesChanged(oldRows: Option<Snapshot>, newRows: Option<Snapshot>): Result<bool>
  {
    if oldRows.None? || newRows.None? then Err(TypeError)
    else Ok(exists i :: 0 <= i < |newRows.value| && newRows.value[i] !in oldRows.value)
  }

  /** The line check reports no change exactly when every downloaded row is
      already cached; in particular a snapshot compared with itself, or with
      any sub-list of its rows, has no new lines. */
  lemma LinesChangedSpec(oldRows: Snapshot, newRows: Snapshot)
    ensures LinesChanged(Some(oldRows), Some(newRows)) == Ok(false) <==>
      forall r :: r in newRows ==> r in oldRows
    ensures LinesChanged(Some(oldRows), Some(newRows)).Ok?
    ensures LinesChanged(Some(oldRows), Some(oldRows)) == Ok(false)
  {
  }

  /** `content_has_changed`: the length check, then the version check, then
      the line check, each consulted only when the ones before found nothing. */
  function ContentChanged(oldRows: Option<Snapshot>, newRows: Option<Snapshot>): Result<bool>
  {
    if LengthChanged(oldRows, newRows) then Ok(true)
    else
      var v :- VersionChanged(oldRows, newRows);
      if v then Ok(true) else LinesChanged(oldRows, newRows)
  }

  /** For two loaded snapshots whose rows all carry a version, no change is
      reported exactly when they have the same length, carry the same single
      version (or none), and every downloaded row is already cached. */
  lemma UnchangedIff(oldRows: Option<Snapshot>, newRows: Option<Snapshot>)
    requires Versions(oldRows).Ok? && Versions(newRows).Ok?
    ensures ContentChanged(oldRows, newRows) == Ok(false) <==>
      |oldRows.value| == |newRows.value|
      && VersionSet(oldRows) == VersionSet(newRows) && |VersionSet(oldRows)| <= 1
      && forall r :: r in newRows.value ==> r in oldRows.value
    ensures ContentChanged(oldRows, newRows).Ok?
  {
    VersionChangedMeaning(oldRows, newRows);
  }

  /** Comparing a snapshot with itself reports a change exactly when it
      carries two or more versions. */
  lemma SelfComparison(rows: Snapshot)
    requires Versions(Some(rows)).Ok?
    ensures ContentChanged(Some(rows), Some(rows)) == Ok(|VersionSet(Some(rows))| >= 2)
  {
    UnchangedIff(Some(rows), Some(rows));
  }

  /** A downloaded snapshot with a row the cache lacks is always a change,
      whatever its length and versions. */
  lemma NewRowIsChange(oldRows: Snapshot, newRows: Snapshot, r: Record)
    requires Versions(Some(oldRows)).Ok? && Versions(Some(newRows)).Ok?
    requires r in newRows && r !in oldRows
    ensures ContentChanged(Some(oldRows), Some(newRows)) == Ok(true)
  {
    UnchangedIff(Some(oldRows), Some(newRows));
  }

  /** The row whose version is replaced still carries one, the new one. */
  lemma ReplacedVersions(rows: Snapshot, i: nat, w: string)
    requires Versions(Some(rows)).Ok? && i < |rows|
    ensures var edited := rows[i := Put(rows[i], VersionKey, Text(w))];
      Versions(Some(edited)).Ok? && Versions(Some(edited)).value[i] == Text(w)
  {
    var edited := rows[i := Put(rows[i], VersionKey, Text(w))];
    PutFind(rows[i], VersionKey, Text(w));
    forall j | 0 <= j < |edited| ensures Find(edited[j], VersionKey).Some? {
      if j != i {
        assert edited[j] == rows[j];
      }
    }
  }

  /** Replacing the version of one row by a different one is always a
      change: the new version is carried by the download and not by that row,
      so the version sets either differ or hold two or more versions. */
  lemma VersionReplacedIsChange(rows: Snapshot, i: nat, w: string)
    requires Versions(Some(rows)).Ok? && i < |rows|
    requires Find(rows[i], VersionKey) != Some(Text(w))
    ensures ContentChanged(Some(rows), Some(rows[i := Put(rows[i], VersionKey, Text(w))])) == Ok(true)
  {
    var edited := rows[i := Put(rows[i], VersionKey, Text(w))];
    ReplacedVersions(rows, i, w);
    var a := Versions(Some(rows)).value[i];
    var olds, news := VersionSet(Some(rows)), VersionSet(Some(edited));
    assert a in olds && Text(w) in news;
    if olds == news {
      assert a != Text(w);
      assert {a, Text(w)} <= olds;
      assert |{a, Text(w)}| == 2;
    }
    UnchangedIff(Some(rows), Some(edited));
  }

  /** Appending a row to a snapshot is always a change. */
  lemma AppendedRowIsChange(rows: Snapshot, r: Record)
    ensures ContentChanged(Some(rows), Some(rows + [r])) == Ok(true)
  {
  }

  /** A download that was never read is no change in length, and the
      version check then raises `TypeError`. */
  lemma NoNewSnapshot(oldRows: Option<Snapshot>)
    requires Versions(oldRows).Ok?
    ensures ContentChanged(oldRows, None) == Err(TypeError)
  {
  }
}
