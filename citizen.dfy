/** The citizen page: the form's submit handler and the two page-level
    variables that hold the photo and position captured so far. */
module Citizen {
  import opened Model
  import opened Text
  import opened Storage

  /** Everything one press of Submit works from: the raw form fields, the
      photo and position captured so far, and the id and clock reading the
      page draws for the new report. */
  datatype Submission = Submission(
    category: string,
    titleField: string,
    descriptionField: string,
    photoDataUrl: string,
    location: Option<Location>,
    id: string,
    now: int)

  /** The submit handler's guard: a category is chosen and the title is not
      blank once trimmed. */
  predicate IsValidSubmission(category: string, titleField: string) {
    category != "" && Trim(titleField) != ""
  }

  /** A submission is refused exactly when no category is chosen or the title
      holds nothing but whitespace. */
  lemma ValidSubmissionIff(category: string, titleField: string)
    ensures IsValidSubmission(category, titleField)
        <==> category != "" && exists i :: 0 <= i < |titleField| && !IsTrimmable(titleField[i])
  {
  }

  /** The record built by the submit handler. */
  function NewReport(sub: Submission): Report {
    Report(sub.id, sub.category, Trim(sub.titleField), Trim(sub.descriptionField),
           sub.photoDataUrl, sub.location, Open, sub.now)
  }

  /** The stored value after one press of Submit. */
  function Submitted(slot: Option<seq<Report>>, sub: Submission): (r: Option<seq<Report>>)
    ensures !IsValidSubmission(sub.category, sub.titleField) ==> r == slot
    ensures IsValidSubmission(sub.category, sub.titleField) ==>
      var prev := Loaded(slot);
      && r.Some? && |r.value| == |prev| + 1
      && prev <= r.value
      && var added := r.value[|prev|];
      && added.id == sub.id && added.category == sub.category
      && added.title == Trim(sub.titleField) && added.description == Trim(sub.descriptionField)
      && added.photoDataUrl == sub.photoDataUrl && added.location == sub.location
      && added.status == Open && added.createdAt == sub.now
  {
    if !IsValidSubmission(sub.category, sub.titleField) then slot
    else Some(Loaded(slot) + [NewReport(sub)])
  }

  /** The stored value after a series of submissions. */
  function SubmittedAll(slot: Option<seq<Report>>, subs: seq<Submission>): Option<seq<Report>>
    decreases |subs|
  {
    if subs == [] then slot else SubmittedAll(Submitted(slot, subs[0]), subs[1..])
  }

  /** How many of the submissions pass the guard. */
  function ValidCount(subs: seq<Submission>): nat {
    if subs == [] then 0
    else (if IsValidSubmission(subs[0].category, subs[0].titleField) then 1 else 0) + ValidCount(subs[1..])
  }

  /** After any series of submissions the store holds what it held before,
      in front, and exactly one more report per valid submission. */
  lemma {:induction false} SubmittedAllCount(slot: Option<seq<Report>>, subs: seq<Submission>)
    ensures Loaded(slot) <= Loaded(SubmittedAll(slot, subs))
    ensures |Loaded(SubmittedAll(slot, subs))| == |Loaded(slot)| + ValidCount(subs)
    decreases |subs|
  {
    if subs != [] {
      var next := Submitted(slot, subs[0]);
      var v := if IsValidSubmission(subs[0].category, subs[0].titleField) then 1 else 0;
      assert Loaded(slot) <= Loaded(next) && |Loaded(next)| == |Loaded(slot)| + v;
      SubmittedAllCount(next, subs[1..]);
    }
  }

  /** Starting from the seeded sample data, N valid submissions leave 2 + N
      reports. */
  lemma SeededThenSubmitted(slot: Option<seq<Report>>, g: string, p: string, t: int, u: int, subs: seq<Submission>)
    requires Loaded(slot) == []
    requires ValidCount(subs) == |subs|
    ensures |Loaded(SubmittedAll(Seeded(slot, g, p, t, u), subs))| == 2 + |subs|
  {
    SubmittedAllCount(Seeded(slot, g, p, t, u), subs);
  }

  /** The citizen page. `currentPhotoData` and `currentLocation` are the
      variables the photo reader and the location request fill in and the
      submit and reset handlers clear. */
  class CitizenPage {
    const store: ReportStorage
    var currentPhotoData: string
    var currentLocation: Option<Location>

    /** Page start-up: seed the store, then start with nothing captured. */
    constructor (store: ReportStorage, garbageId: string, potholeId: string, garbageNow: int, potholeNow: int)
      modifies store
      ensures this.store == store
      ensures store.slot == Seeded(old(store.slot), garbageId, potholeId, garbageNow, potholeNow)
      ensures currentPhotoData == "" && currentLocation == None
    {
      this.store := store;
      currentPhotoData := "";
      currentLocation := None;
      new;
      store.SeedIfEmpty(garbageId, potholeId, garbageNow, potholeNow);
    }

    /** The photo reader finished: its data URL becomes the pending photo. */
    method OnPhotoRead(dataUrl: string)
      modifies this
      ensures currentPhotoData == dataUrl && currentLocation == old(currentLocation)
    {
      currentPhotoData := dataUrl;
    }

    /** The location request succeeded. (On failure nothing is stored.) */
    method OnLocationFound(lat: real, lon: real)
      modifies this
      ensures currentLocation == Some(Location(lat, lon)) && currentPhotoData == old(currentPhotoData)
    {
      currentLocation := Some(Location(lat, lon));
    }

    /** The form's reset button: forget the captured photo and position. */
    method OnReset()
      modifies this
      ensures currentPhotoData == "" && currentLocation == None
    {
      currentPhotoData := "";
      currentLocation := None;
    }

    /** The form's submit handler. A refused submission changes nothing; an
        accepted one appends the new report, saves, and clears what was
        captured. */
    method OnSubmit(category: string, titleField: string, descriptionField: string, id: string, now: int)
      returns (accepted: bool)
      modifies this, store
      ensures accepted == IsValidSubmission(category, titleField)
      ensures store.slot == Submitted(old(store.slot),
        Submission(category, titleField, descriptionField, old(currentPhotoData), old(currentLocation), id, now))
      ensures !accepted ==> currentPhotoData == old(currentPhotoData) && currentLocation == old(currentLocation)
      ensures accepted ==> currentPhotoData == "" && currentLocation == None
    {
      ghost var sub := Submission(category, titleField, descriptionField, currentPhotoData, currentLocation, id, now);
      ghost var expected := Submitted(store.slot, sub);
      var title := Trim(titleField);
      var description := Trim(descriptionField);
      if category == "" || title == "" {
        assert expected == store.slot;
        return false;
      }
      var arr := store.LoadReports();
      var report := Report(id, category, title, description, currentPhotoData, currentLocation, Open, now);
      assert report == NewReport(sub);
      arr := arr + [report];
      assert expected == Some(arr);
      store.SaveReports(arr);
      currentPhotoData := "";
      currentLocation := None;
      accepted := true;
    }
  }
}
