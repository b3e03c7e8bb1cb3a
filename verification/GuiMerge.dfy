/** The filter of the gzbc viewer: merging a filtered report into the list of all zones. */
module GuiMerge {
  import opened Zones

  datatype GuiZone = GuiZone(no: nat, visible: bool, info: Zone)

  /** The entry of the report for the zone that starts at `start`, if there is one. */
  function FindStart(report: seq<Zone>, start: nat): (j: nat)
    ensures j <= |report|
    ensures j < |report| ==> report[j].start == start
    ensures j == |report| ==> forall i :: 0 <= i < |report| ==> report[i].start != start
  {
    if report == [] then 0 else if report[0].start == start then 0 else 1 + FindStart(report[1..], start)
  }

  /** What a list entry becomes: refreshed and visible exactly if the report has its zone. */
  function Merged(entry: GuiZone, report: seq<Zone>): GuiZone {
    var j := FindStart(report, entry.info.start);
    if j < |report| then entry.(visible := true, info := report[j]) else entry.(visible := false)
  }

  /**
   * An entry is visible exactly if the report has a zone of its start, whose information it then carries;
   * otherwise it keeps its own.
   */
  lemma MergedExactly(entry: GuiZone, report: seq<Zone>)
    requires Ascending(report)
    ensures Merged(entry, report).visible <==> exists j :: 0 <= j < |report| && report[j].start == entry.info.start
    ensures Merged(entry, report).no == entry.no
    ensures forall j :: 0 <= j < |report| && report[j].start == entry.info.start ==> Merged(entry, report).info == report[j]
    ensures !Merged(entry, report).visible ==> Merged(entry, report).info == entry.info
  {
    forall j | 0 <= j < |report| && report[j].start == entry.info.start
      ensures FindStart(report, entry.info.start) == j
    {
      FindStartAt(report, j);
    }
  }

  /** Starts grow along the report. */
  predicate Ascending(report: seq<Zone>) {
    forall i, j :: 0 <= i < j < |report| ==> report[i].start < report[j].start
  }

  predicate HasStart(entries: seq<GuiZone>, start: nat) {
    exists i :: 0 <= i < |entries| && entries[i].info.start == start
  }

  /** Starts grow along the list, and every zone of the report is in it. */
  predicate Covers(entries: seq<GuiZone>, report: seq<Zone>) {
    && (forall i, j :: 0 <= i < j < |entries| ==> entries[i].info.start < entries[j].info.start)
    && forall j :: 0 <= j < |report| ==> HasStart(entries, report[j].start)
  }

  lemma {:induction false} FindStartAt(report: seq<Zone>, j: nat)
    requires Ascending(report) && j < |report|
    ensures FindStart(report, report[j].start) == j
  {
    if j > 0 {
      assert forall i :: 0 <= i < |report| - 1 ==> report[1..][i] == report[i + 1];
      FindStartAt(report[1..], j - 1);
    }
  }

  /**
   * The merge loop. Every list entry is visible exactly if its zone is in the report, carries the
   * information reported for it, and the whole report is used up.
   */
  method ApplyFilter(zones: array<GuiZone>, report: seq<Zone>) returns (used: nat)
    requires Ascending(report) && Covers(zones[..], report)
    modifies zones
    ensures used == |report|
    ensures forall i :: 0 <= i < zones.Length ==> zones[i] == Merged(old(zones[i]), report)
    ensures forall i :: 0 <= i < zones.Length ==>
              (zones[i].visible <==> exists j :: 0 <= j < |report| && report[j].start == old(zones[i]).info.start)
  {
    hide Splits, Covers, Ascending, HasStart, FindStart;
    ghost var entries := zones[..];
    used := 0;
    SplitStarts(entries, report);
    for i := 0 to zones.Length
      invariant used <= |report|
      invariant forall k :: 0 <= k < i ==> zones[k] == Merged(entries[k], report)
      invariant forall k :: i <= k < zones.Length ==> zones[k] == entries[k]
      invariant Splits(entries, report, i, used)
    {
      SplitStep(entries, report, i, used);
      if used < |report| && zones[i].info.start == report[used].start {
        zones[i] := zones[i].(info := report[used], visible := true);
        used := used + 1;
      } else {
        zones[i] := zones[i].(visible := false);
      }
    }
    SplitEnds(entries, report, used);
    forall i | 0 <= i < zones.Length
      ensures zones[i].visible <==> exists j :: 0 <= j < |report| && report[j].start == entries[i].info.start
    {
      MergedExactly(entries[i], report);
    }
  }

  lemma SplitStarts(entries: seq<GuiZone>, report: seq<Zone>)
    ensures Splits(entries, report, 0, 0)
  {
  }

  lemma SplitEnds(entries: seq<GuiZone>, report: seq<Zone>, used: nat)
    requires Covers(entries, report) && used <= |report| && Splits(entries, report, |entries|, used)
    ensures used == |report|
  {
    if used < |report| {
      var p := Position(entries, report, used);
      assert false;
    }
  }

  lemma Position(entries: seq<GuiZone>, report: seq<Zone>, j: nat) returns (p: nat)
    requires Covers(entries, report) && j < |report|
    ensures p < |entries| && entries[p].info.start == report[j].start
  {
    assert HasStart(entries, report[j].start);
    p :| 0 <= p < |entries| && entries[p].info.start == report[j].start;
  }

  /** The reported zones before `used` are among the entries before `i`, and the others after them. */
  predicate Splits(entries: seq<GuiZone>, report: seq<Zone>, i: nat, used: nat)
    requires i <= |entries| && used <= |report|
  {
    && (forall j, k :: 0 <= j < used && i <= k < |entries| ==> report[j].start < entries[k].info.start)
    && (forall j, k :: used <= j < |report| && 0 <= k < i ==> entries[k].info.start < report[j].start)
  }

  lemma SplitStep(entries: seq<GuiZone>, report: seq<Zone>, i: nat, used: nat)
    requires i < |entries| && used <= |report| && Splits(entries, report, i, used)
    requires Ascending(report) && Covers(entries, report)
    ensures var found := used < |report| && entries[i].info.start == report[used].start;
            && FindStart(report, entries[i].info.start) == (if found then used else |report|)
            && Splits(entries, report, i + 1, if found then used + 1 else used)
  {
    hide FindStart, Splits, Covers;
    if used < |report| {
      NextStart(entries, report, i, used);
    }
    StartFound(entries, report, i, used);
    SplitsNext(entries, report, i, used);
  }

  /** The next reported zone is at this entry or after it. */
  lemma NextStart(entries: seq<GuiZone>, report: seq<Zone>, i: nat, used: nat)
    requires i < |entries| && used < |report| && Splits(entries, report, i, used)
    requires Ascending(report) && Covers(entries, report)
    ensures entries[i].info.start <= report[used].start
  {
    var p := Position(entries, report, used);
  }

  lemma StartFound(entries: seq<GuiZone>, report: seq<Zone>, i: nat, used: nat)
    requires i < |entries| && used <= |report| && Splits(entries, report, i, used) && Ascending(report)
    requires used < |report| ==> entries[i].info.start <= report[used].start
    ensures FindStart(report, entries[i].info.start)
         == if used < |report| && entries[i].info.start == report[used].start then used else |report|
  {
    if used < |report| && entries[i].info.start == report[used].start {
      FindStartAt(report, used);
    }
  }

  lemma SplitsNext(entries: seq<GuiZone>, report: seq<Zone>, i: nat, used: nat)
    requires i < |entries| && used <= |report| && Splits(entries, report, i, used)
    requires Ascending(report) && Covers(entries, report)
    requires used < |report| ==> entries[i].info.start <= report[used].start
    ensures var found := used < |report| && entries[i].info.start == report[used].start;
            Splits(entries, report, i + 1, if found then used + 1 else used)
  {
    hide HasStart;
  }

  /** A filtered listing of the zones in the list is such a report. */
  lemma FilteredReportFits(entries: seq<GuiZone>, table: seq<Zone>, end: nat, option: nat)
    requires Contiguous(table, 0, end) && |entries| == |table|
    requires forall i :: 0 <= i < |table| ==> entries[i].info.start == table[i].start
    ensures Ascending(Matches(table, 0, option)) && Covers(entries, Matches(table, 0, option))
  {
    ContiguousBounds(table, 0, end);
    MatchesAscending(table, 0, end, option);
    var m := Matches(table, 0, option);
    forall j | 0 <= j < |m|
      ensures HasStart(entries, m[j].start)
    {
      MatchesExactly(table, 0, option, m[j]);
      var i :| 0 <= i < |table| && table[i] == m[j];
      assert entries[i].info.start == m[j].start;
    }
  }

  lemma {:induction false} MatchesAscending(table: seq<Zone>, start: nat, end: nat, option: nat)
    requires Contiguous(table, start, end)
    ensures Ascending(Matches(table, 0, option))
    ensures forall j :: 0 <= j < |Matches(table, 0, option)| ==> Matches(table, 0, option)[j].start >= start
  {
    if table != [] {
      MatchesAscending(table[1..], table[0].End(), end, option);
    }
  }
}
