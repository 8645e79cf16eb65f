/** The storage helpers both pages share (`loadReports`, `saveReports`,
    `seedIfEmpty`). Browser storage holds one value under one key: the whole
    array of reports, always read and overwritten as a unit. */
module Storage {
  import opened Model

  /** What the stored value reads back as. `None` stands for every value
      `loadReports` cannot use: no entry, an empty entry, or text that does
      not parse. */
  function Loaded(slot: Option<seq<Report>>): seq<Report> {
    match slot
    case Some(arr) => arr
    case None => []
  }

  const DayMs: int := 3600 * 1000 * 24
  const FiveHoursMs: int := 3600 * 1000 * 5

  /** The two illustrative reports written on first use, one day and five
      hours old respectively. Each record reads the clock on its own, so the
      two readings are separate parameters. */
  function SampleReports(garbageId: string, potholeId: string, garbageNow: int, potholeNow: int): seq<Report> {
    [ Report(garbageId, "Garbage", "Overflowing bin", "Garbage spilling near market", "",
             Some(Location(19.0760, 72.8777)), Open, garbageNow - DayMs),
      Report(potholeId, "Pothole", "Large pothole", "Bus route damaged", "",
             Some(Location(19.075, 72.88)), Assigned, potholeNow - FiveHoursMs) ]
  }

  /** The stored value after `seedIfEmpty`. */
  function Seeded(slot: Option<seq<Report>>, garbageId: string, potholeId: string, garbageNow: int, potholeNow: int): Option<seq<Report>> {
    if |Loaded(slot)| == 0 then Some(SampleReports(garbageId, potholeId, garbageNow, potholeNow)) else slot
  }

  /** Seeding an unusable or empty store writes exactly the two sample
      reports; seeding a store that has reports leaves it as it is. */
  lemma SeedWritesSamples(slot: Option<seq<Report>>, garbageId: string, potholeId: string, garbageNow: int, potholeNow: int)
    ensures var s := Seeded(slot, garbageId, potholeId, garbageNow, potholeNow);
      && (Loaded(slot) == [] ==>
            && s.Some? && |s.value| == 2
            && s.value[0].category == "Garbage" && s.value[0].title == "Overflowing bin"
            && s.value[0].status == Open && s.value[0].id == garbageId
            && s.value[1].category == "Pothole" && s.value[1].title == "Large pothole"
            && s.value[1].status == Assigned && s.value[1].id == potholeId)
      && (Loaded(slot) != [] ==> s == slot)
  {
  }

  /** Seeding twice is seeding once, whatever ids and clock the second run
      draws. */
  lemma SeedIdempotent(slot: Option<seq<Report>>, g1: string, p1: string, t1: int, u1: int, g2: string, p2: string, t2: int, u2: int)
    ensures Seeded(Seeded(slot, g1, p1, t1, u1), g2, p2, t2, u2) == Seeded(slot, g1, p1, t1, u1)
  {
  }

  /** Reading back what was saved gives the saved array, and saving what was
      read leaves a usable stored value as it was. */
  lemma SaveLoadRoundTrip(arr: seq<Report>, slot: Option<seq<Report>>)
    ensures Loaded(Some(arr)) == arr
    ensures slot.Some? ==> Some(Loaded(slot)) == slot
  {
  }

  /** The browser's storage entry for the reports key. */
  class ReportStorage {
    var slot: Option<seq<Report>>

    constructor (initial: Option<seq<Report>>)
      ensures slot == initial
    {
      slot := initial;
    }

    /** `loadReports`: never fails; an unusable entry reads as no reports. */
    method LoadReports() returns (arr: seq<Report>)
      ensures slot.Some? ==> arr == slot.value
      ensures slot.None? ==> arr == []
    {
      if slot.None? {
        return [];
      }
      arr := slot.value;
    }

    /** `saveReports`: overwrites the whole entry. */
    method SaveReports(arr: seq<Report>)
      modifies this
      ensures slot == Some(arr)
    {
      slot := Some(arr);
    }

    /** `seedIfEmpty`, with the two fresh ids and the two clock readings as
        parameters. */
    method SeedIfEmpty(garbageId: string, potholeId: string, garbageNow: int, potholeNow: int)
      modifies this
      ensures slot == Seeded(old(slot), garbageId, potholeId, garbageNow, potholeNow)
      ensures |Loaded(old(slot))| == 0 ==> slot == Some(SampleReports(garbageId, potholeId, garbageNow, potholeNow))
      ensures |Loaded(old(slot))| != 0 ==> slot == old(slot)
    {
      var arr := LoadReports();
      if |arr| == 0 {
        SaveReports(SampleReports(garbageId, potholeId, garbageNow, potholeNow));
      }
    }
  }
}
