/**
 * `RegistrationPortal`: the attendee counter it keeps, and what one call of
 * `capture_new_member` does with it. Console input arrives as the three raw
 * strings typed, the webcam as whether it opened plus the trace of loop
 * iterations, and the files written as the records they would contain.
 */
module Portal {
  import opened Wrappers
  import opened PyText
  import opened AttendeeIds
  import opened CaptureLoop

  /** The `metadata` dict saved for a completed registration. Paths are kept
      as their `os.path.join` components; the registration timestamp is not
      modelled. */
  datatype Metadata = Metadata(
    attendeeId: int,
    name: string,
    email: string,
    phone: string,
    status: string,
    photosTaken: nat,
    photosDirectory: seq<string>,
    requiresApproval: bool)

  /** How a call of `capture_new_member` ends. Only `Registered` writes a
      metadata file; every outcome but `NameMissing` has used up an id. */
  datatype Registration =
    | NameMissing
    | CameraUnavailable(attendeeId: int)
    | NoPhotos(attendeeId: int)
    | Registered(attendeeId: int, metadata: Metadata, metaFile: seq<string>)

  /** The value the Python method returns: the id on success, `None` otherwise. */
  function Returned(r: Registration): Option<int> {
    if r.Registered? then Some(r.attendeeId) else None
  }

  /** Whether the call took an id from the counter. */
  predicate ConsumesId(r: Registration) {
    !r.NameMissing?
  }

  /** `pending/photos/attendee_<id>` under the data directory. */
  function MemberDir(dataDir: string, id: int): seq<string> {
    [dataDir, "pending", "photos", "attendee_" + FormatInt(id)]
  }

  /** `pending/metadata/attendee_<id>_info.json` under the data directory. */
  function MetaFilePath(dataDir: string, id: int): seq<string> {
    [dataDir, "pending", "metadata", MetaFileName(id)]
  }

  /** The metadata file names a call leaves behind, as the directory walk of a
      later `_get_next_id` would list them. */
  function WrittenMetaFiles(r: Registration): seq<string> {
    if r.Registered? then [MetaFileName(r.attendeeId)] else []
  }

  /** What `capture_new_member` does when the counter stands at `counter`. */
  function RegistrationOf(dataDir: string, counter: int, nameInput: string, emailInput: string,
                          phoneInput: string, cameraOpens: bool, events: seq<Event>): Registration
  {
    var name := Strip(nameInput);
    if name == [] then NameMissing
    else if !cameraOpens then CameraUnavailable(counter)
    else
      var photos := PhotosTaken(events);
      if photos == 0 then NoPhotos(counter)
      else
        Registered(counter,
          Metadata(counter, name, Strip(emailInput), Strip(phoneInput), "pending", photos,
                   MemberDir(dataDir, counter), true),
          MetaFilePath(dataDir, counter))
  }

  /** The outcomes of one call: an all-whitespace name returns before an id is
      taken; otherwise the current counter value is the id, used up even when
      the webcam does not open or no photo is taken; metadata is written
      exactly when at least one photo was taken, and it records the stripped
      name, the status `pending`, the approval flag and the photo count. */
  lemma RegistrationOutcomes(dataDir: string, counter: int, nameInput: string, emailInput: string,
                             phoneInput: string, cameraOpens: bool, events: seq<Event>)
    ensures var r := RegistrationOf(dataDir, counter, nameInput, emailInput, phoneInput, cameraOpens, events);
      (r.NameMissing? <==> forall i :: 0 <= i < |nameInput| ==> IsSpace(nameInput[i])) &&
      (ConsumesId(r) ==> r.attendeeId == counter) &&
      (r.Registered? <==> ConsumesId(r) && cameraOpens && PhotosTaken(events) >= 1) &&
      (!cameraOpens && ConsumesId(r) ==> r.CameraUnavailable?) &&
      (r.Registered? ==> Returned(r) == Some(counter)) &&
      (!r.Registered? ==> Returned(r) == None) &&
      (r.Registered? ==>
        r.metadata.attendeeId == counter &&
        r.metadata.name == Strip(nameInput) && r.metadata.name != [] &&
        r.metadata.email == Strip(emailInput) && r.metadata.phone == Strip(phoneInput) &&
        r.metadata.status == "pending" && r.metadata.requiresApproval &&
        1 <= r.metadata.photosTaken == PhotosTaken(events) <= MaxPhotos &&
        r.metadata.photosDirectory == MemberDir(dataDir, counter) &&
        r.metaFile == MetaFilePath(dataDir, counter) &&
        ParseAttendeeId(r.metaFile[3]) == Some(counter))
  {
    StripEmptyIffBlank(nameInput);
    ParseMetaFileName(counter);
  }

  /** A portal started afresh after the call finds, through the files the call
      wrote, the next id: one past the id it used if metadata was written,
      and the same id again otherwise. The saved `.jpg` photos never count. */
  lemma RestartNextId(names: seq<string>, photos: seq<string>, r: Registration)
    requires forall k :: 0 <= k < |photos| ==> EndsWith(photos[k], ".jpg")
    requires ConsumesId(r) ==> r.attendeeId == NextIdOf(names)
    ensures NextIdOf(names + photos + WrittenMetaFiles(r)) ==
            if r.Registered? then NextIdOf(names) + 1 else NextIdOf(names)
  {
    SkippedNamesLeaveNextId(names, photos);
    if r.Registered? {
      var c := r.attendeeId;
      ParseMetaFileName(c);
      ParsedIdsSnoc(names + photos, MetaFileName(c));
      var ps := ParsedIds(names + photos) + [Some(c)];
      assert ps[..|ps| - 1] == ParsedIds(names + photos);
    } else {
      assert names + photos + [] == names + photos;
    }
  }

  lemma {:induction false} SkippedNamesLeaveNextId(names: seq<string>, photos: seq<string>)
    requires forall k :: 0 <= k < |photos| ==> EndsWith(photos[k], ".jpg")
    ensures NextIdOf(names + photos) == NextIdOf(names)
    decreases |photos|
  {
    if photos == [] {
      assert names + photos == names;
    } else {
      var p0 := photos[..|photos| - 1];
      var last := photos[|photos| - 1];
      SkippedNamesLeaveNextId(names, p0);
      PhotoFileIgnored(last);
      assert names + photos == (names + p0) + [last];
      ParsedIdsSnoc(names + p0, last);
      var ps := ParsedIds(names + p0) + [None];
      assert ps[..|ps| - 1] == ParsedIds(names + p0);
    }
  }

  /** One call of option 1 of the portal's menu: the three typed lines, whether
      the webcam opened, and what the capture loop observed. */
  datatype Request = Request(nameInput: string, emailInput: string, phoneInput: string,
                             cameraOpens: bool, events: seq<Event>)

  /** The outcomes of a sequence of calls and the counter after them. */
  function SessionRun(dataDir: string, counter: int, requests: seq<Request>): (seq<Registration>, int) {
    if requests == [] then ([], counter)
    else
      var (outcomes, c) := SessionRun(dataDir, counter, requests[..|requests| - 1]);
      var q := requests[|requests| - 1];
      var r := RegistrationOf(dataDir, c, q.nameInput, q.emailInput, q.phoneInput, q.cameraOpens, q.events);
      (outcomes + [r], if ConsumesId(r) then c + 1 else c)
  }

  /** The ids a sequence of outcomes used up, in order. */
  function IssuedIds(outcomes: seq<Registration>): seq<int> {
    if outcomes == [] then []
    else
      var r := outcomes[|outcomes| - 1];
      IssuedIds(outcomes[..|outcomes| - 1]) + (if ConsumesId(r) then [r.attendeeId] else [])
  }

  /** The ids issued during one session are consecutive from the starting
      counter, hence strictly increasing and never handed out twice, and the
      counter ends just past the last of them. */
  lemma {:induction false} SessionIdsConsecutive(dataDir: string, counter: int, requests: seq<Request>)
    ensures var (outcomes, c) := SessionRun(dataDir, counter, requests);
      var ids := IssuedIds(outcomes);
      |outcomes| == |requests| &&
      c == counter + |ids| &&
      (forall k :: 0 <= k < |ids| ==> ids[k] == counter + k) &&
      (forall j, k :: 0 <= j < k < |ids| ==> ids[j] < ids[k])
  {
    if requests != [] {
      var init := requests[..|requests| - 1];
      SessionIdsConsecutive(dataDir, counter, init);
      var (outcomes, c) := SessionRun(dataDir, counter, init);
      var q := requests[|requests| - 1];
      var r := RegistrationOf(dataDir, c, q.nameInput, q.emailInput, q.phoneInput, q.cameraOpens, q.events);
      RegistrationOutcomes(dataDir, c, q.nameInput, q.emailInput, q.phoneInput, q.cameraOpens, q.events);
      var all := outcomes + [r];
      assert all[..|all| - 1] == outcomes;
    }
  }

  class RegistrationPortal {
    const dataDir: string
    var attendeeCounter: int

    /** `__init__`: the counter starts at the next id found under the data
        directory; `walk` is what `os.walk(dataDir)` lists there. */
    constructor (dataDir: string, walk: seq<seq<string>>)
      ensures this.dataDir == dataDir
      ensures attendeeCounter == NextIdOf(Flatten(walk)) >= 1
    {
      var next := NextId(walk);
      this.dataDir := dataDir;
      attendeeCounter := next;
    }

    /** `capture_new_member`: strips the three typed lines, refuses an empty
        name before touching the counter, otherwise takes the counter value
        as the id and increments the counter, then captures and, when at
        least one photo was saved, writes the metadata. */
    method CaptureNewMember(nameInput: string, emailInput: string, phoneInput: string,
                            cameraOpens: bool, events: seq<Event>) returns (r: Registration)
      modifies this
      ensures r == RegistrationOf(dataDir, old(attendeeCounter), nameInput, emailInput, phoneInput,
                                  cameraOpens, events)
      ensures attendeeCounter == if ConsumesId(r) then old(attendeeCounter) + 1 else old(attendeeCounter)
    {
      var name := Strip(nameInput);
      var email := Strip(emailInput);
      var phone := Strip(phoneInput);
      if name == [] {
        return NameMissing;
      }
      var attendeeId := attendeeCounter;
      attendeeCounter := attendeeCounter + 1;
      var memberDir := MemberDir(dataDir, attendeeId);
      if !cameraOpens {
        return CameraUnavailable(attendeeId);
      }
      var photosTaken := CapturePhotos(events);
      if photosTaken == 0 {
        return NoPhotos(attendeeId);
      }
      var metadata := Metadata(attendeeId, name, email, phone, "pending", photosTaken, memberDir, true);
      r := Registered(attendeeId, metadata, MetaFilePath(dataDir, attendeeId));
    }

    /** Option 1 of the menu chosen once per request, in order. */
    method RunSession(requests: seq<Request>) returns (outcomes: seq<Registration>)
      modifies this
      ensures (outcomes, attendeeCounter) == SessionRun(dataDir, old(attendeeCounter), requests)
    {
      outcomes := [];
      for i := 0 to |requests|
        invariant (outcomes, attendeeCounter) == SessionRun(dataDir, old(attendeeCounter), requests[..i])
      {
        var q := requests[i];
        assert requests[..i + 1][..i] == requests[..i];
        var r := CaptureNewMember(q.nameInput, q.emailInput, q.phoneInput, q.cameraOpens, q.events);
        outcomes := outcomes + [r];
      }
      assert requests[..|requests|] == requests;
    }
  }
}
