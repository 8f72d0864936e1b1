/**
 * The tracker itself: the entries recorded so far and the backup log they
 * are kept in, the add action with its validation, and the four views the
 * program derives from the entries (statistics report, recent-entries log,
 * summary file, chart slice sizes).
 */
module Tracker {
  import opened Wrappers
  import opened Text
  import opened Backup
  import opened Stats

  /** The lowest and highest age the add action accepts. */
  const MinAge: int := 0
  const MaxAge: int := 120

  /** The report shown while there are no entries. */
  const NoDataMessage: string := "No data yet. Enter players to see stats.\n"

  /** How the add action classifies the text of the age field. */
  datatype AgeInput =
    | NoInput               // nothing but white space: the action does nothing
    | NotANumber            // `int()` raises ValueError: "Please enter a number."
    | OutOfRange(age: int)  // "Please enter a valid age between 0 and 120."
    | ValidAge(age: int)    // the entry is recorded

  /** The validation at the start of `add_entry`. */
  function ReadAge(raw: string): (r: AgeInput)
    ensures r.NoInput? <==> Strip(raw) == []
    ensures r.NotANumber? <==> Strip(raw) != [] && ParseInt(raw).None?
    ensures (r.OutOfRange? || r.ValidAge?) ==> ParseInt(raw) == Some(r.age)
    ensures r.OutOfRange? ==> r.age < MinAge || r.age > MaxAge
    ensures r.ValidAge? ==> MinAge <= r.age <= MaxAge
  {
    var input := Strip(raw);
    ParseIntStripped(raw);
    if input == [] then NoInput
    else
      match ParseInt(input)
      case None => NotANumber
      case Some(age) => if age < MinAge || age > MaxAge then OutOfRange(age) else ValidAge(age)
  }

  /** Every age from 0 to 120, typed as digits, is accepted; every other integer is refused as out of range. */
  lemma ReadAgeOfInteger(n: int)
    ensures ReadAge(Str(n)) == if MinAge <= n <= MaxAge then ValidAge(n) else OutOfRange(n)
  {
    ParseStr(n);
    StripUnpadded(Str(n));
  }

  /** The statistics report: the no-data message, or the figures it displays. */
  datatype Report =
    | NoData(message: string)
    | Figures(
        total: nat,
        top3: seq<int>,
        last: Entry,
        vcYes: nat,
        vcNo: nat,
        young: nat,
        teen: nat,
        adult: nat,
        breakdown: seq<AgeRow>)

  /** The slice sizes of the two pie charts. */
  datatype ChartSizes = ChartSizes(ageGroups: seq<nat>, voiceChat: seq<nat>)

  class RobloxTracker {
    /** `self.entries`: every recorded player, oldest first. */
    var entries: seq<Entry>
    /** The contents of the backup log file, `None` while it does not exist. */
    var backup: Option<seq<Row>>

    /** The entries are exactly what loading the backup log gives, and later rows appended to it will be read back. */
    ghost predicate Synced()
      reads this
    {
      Appendable(backup) && entries == Loaded(backup)
    }

    /** Start-up: the entries are loaded from the backup log. */
    constructor (file: Option<seq<Row>>)
      ensures backup == file && entries == Loaded(file)
      ensures Appendable(file) ==> Synced()
    {
      var loaded := LoadFromBackup(file);
      entries := loaded;
      backup := file;
    }

    /**
     * `add_entry`: validate the age field; on success append one row to the
     * backup log (after the header, if the log is new) and one entry to
     * `entries`. Refused input changes neither.
     */
    method AddEntry(raw: string, hasVc: bool, timestamp: string) returns (result: AgeInput)
      modifies this
      ensures result == ReadAge(raw)
      ensures !result.ValidAge? ==> entries == old(entries) && backup == old(backup)
      ensures result.ValidAge? ==>
        var e := Entry(result.age, hasVc, timestamp);
        && entries == old(entries) + [e]
        && backup == Some((if old(backup).None? then [Header] else old(backup).value) + [DataRow(e)])
      ensures old(Synced()) ==> Synced()
    {
      result := ReadAge(raw);
      if !result.ValidAge? {
        return;
      }
      var age := result.age;
      var e := Entry(age, hasVc, timestamp);
      var rows := if backup.None? then [Header] else backup.value;
      ghost var wasSynced := Synced();
      if wasSynced {
        LoadAppended(backup, e);
      }
      backup := Some(rows + [DataRow(e)]);
      entries := entries + [e];
    }

    /**
     * `generate_stats_report`: the no-data message when there are no
     * entries; otherwise the total, the three most common ages, the last
     * entry, the voice-chat counts, the age-group counts and the ascending
     * per-age breakdown.
     */
    method GenerateStatsReport() returns (r: Report)
      ensures r.NoData? <==> entries == []
      ensures r.NoData? ==> r.message == NoDataMessage
      ensures r.Figures? ==>
        && r.total == |entries|
        && r.last == entries[|entries| - 1]
        && r.top3 == TopThree(AgeData(entries), DistinctAges(entries))
        && r.vcYes == CountWhere(entries, UsesVc)
        && r.vcNo == CountWhere(entries, NoVc)
        && r.young == CountWhere(entries, IsYoung)
        && r.teen == CountWhere(entries, IsTeen)
        && r.adult == CountWhere(entries, IsAdult)
        && r.breakdown == Breakdown(AgeData(entries), DistinctAges(entries))
    {
      if entries == [] {
        return NoData(NoDataMessage);
      }
      var total := |entries|;
      var last := entries[|entries| - 1];
      var data, order := BuildAgeData(entries);
      var sortedAges := SortByTotal(data, order);
      var top3 := sortedAges[..Min(3, |sortedAges|)];
      var young := CountWhere(entries, IsYoung);
      var teen := CountWhere(entries, IsTeen);
      var adult := CountWhere(entries, IsAdult);
      var vcYes := CountWhere(entries, UsesVc);
      VoiceChatSplit(entries);
      var vcNo := total - vcYes;
      r := Figures(total, top3, last, vcYes, vcNo, young, teen, adult, Breakdown(data, order));
    }

    /**
     * `update_log`: the log pane is cleared, then the last 50 entries are
     * visited newest first and each line is inserted at the top, so the pane
     * ends up listing them oldest first.
     */
    method UpdateLog() returns (text: string)
      ensures text == LogText(Recent(entries))
    {
      var recent := entries[|entries| - Min(RecentLimit, |entries|)..];
      text := "";
      var k := |recent|;
      while k > 0
        invariant 0 <= k <= |recent|
        invariant text == LogText(recent[k..])
      {
        k := k - 1;
        assert recent[k..][1..] == recent[k + 1..];
        text := LogLine(recent[k]) + text;
      }
    }

    /**
     * `save_all`: nothing is written when there are no entries; otherwise the
     * summary file is the header followed by one row per age, in ascending
     * age order.
     */
    method SaveAll() returns (written: Option<seq<Row>>)
      ensures written.None? <==> entries == []
      ensures written.Some? ==>
        var b := Breakdown(AgeData(entries), DistinctAges(entries));
        && |written.value| == |b| + 1
        && written.value[0] == SummaryHeader
        && forall i :: 0 <= i < |b| ==> written.value[i + 1] == SummaryRow(b[i])
    {
      if entries == [] {
        return None;
      }
      var data, order := BuildAgeData(entries);
      var breakdown := Breakdown(data, order);
      var rows := WriteSummary(breakdown);
      written := Some(rows);
    }

    /**
     * `generate_charts`: nothing is drawn when there are no entries;
     * otherwise the age-group pie has the young, teen and adult counts
     * (which leave out only the players under six) and the voice-chat pie
     * the counts with and without voice chat (which cover every player).
     */
    method GenerateCharts() returns (sizes: Option<ChartSizes>)
      ensures sizes.None? <==> entries == []
      ensures sizes.Some? ==>
        && sizes.value.ageGroups == [CountWhere(entries, IsYoung), CountWhere(entries, IsTeen), CountWhere(entries, IsAdult)]
        && sizes.value.voiceChat == [CountWhere(entries, UsesVc), CountWhere(entries, NoVc)]
      ensures sizes.Some? ==>
        && sizes.value.ageGroups[0] + sizes.value.ageGroups[1] + sizes.value.ageGroups[2]
           + CountWhere(entries, IsUnderSix) == |entries|
        && sizes.value.voiceChat[0] + sizes.value.voiceChat[1] == |entries|
    {
      if entries == [] {
        return None;
      }
      var ageSizes := [CountWhere(entries, IsYoung), CountWhere(entries, IsTeen), CountWhere(entries, IsAdult)];
      var vcYes := CountWhere(entries, UsesVc);
      VoiceChatSplit(entries);
      var vcNo := |entries| - vcYes;
      AgeGroupsCoverAll(entries);
      sizes := Some(ChartSizes(ageSizes, [vcYes, vcNo]));
    }
  }

  /**
   * The entries a series of add actions records: one for each age text the
   * validation accepts, with its button and its time, in order.
   */
  function Recorded(raws: seq<string>, flags: seq<bool>, stamps: seq<string>): (es: seq<Entry>)
    requires |raws| == |flags| == |stamps|
    ensures |es| <= |raws|
    ensures forall i :: 0 <= i < |es| ==> MinAge <= es[i].age <= MaxAge
  {
    if raws == [] then []
    else
      var n := |raws| - 1;
      var prev := Recorded(raws[..n], flags[..n], stamps[..n]);
      match ReadAge(raws[n])
      case ValidAge(age) => prev + [Entry(age, flags[n], stamps[n])]
      case _ => prev
  }

  /**
   * Recording players from a fresh start and then restarting reads every one
   * of them back from the backup log, in order.
   */
  method RestartAfterAdds(raws: seq<string>, flags: seq<bool>, stamps: seq<string>) returns (reloaded: seq<Entry>, recorded: seq<Entry>)
    requires |raws| == |flags| == |stamps|
    ensures recorded == Recorded(raws, flags, stamps)
    ensures reloaded == recorded
  {
    var t := new RobloxTracker(None);
    for i := 0 to |raws|
      invariant t.Synced()
      invariant t.entries == Recorded(raws[..i], flags[..i], stamps[..i])
    {
      assert raws[..i + 1][..i] == raws[..i];
      assert flags[..i + 1][..i] == flags[..i];
      assert stamps[..i + 1][..i] == stamps[..i];
      var _ := t.AddEntry(raws[i], flags[i], stamps[i]);
    }
    assert raws[..|raws|] == raws && flags[..|raws|] == flags && stamps[..|raws|] == stamps;
    recorded := t.entries;
    var t' := new RobloxTracker(t.backup);
    reloaded := t'.entries;
  }
}
