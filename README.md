# Registration portal: attendee ids and photo capture

This project is a Dafny model of the registration portal in
`scripts/registration_portal.py` of a face-recognition attendance system. The
portal registers new event members. For each member it:

- reads a name, an e-mail address and a phone number from the console;
- hands out the next attendee id from a counter;
- captures up to five webcam photos with the `c` key (`q` stops early);
- writes a pending-approval metadata record;
- at start-up, sets the counter from the highest id found among the
  `attendee_<id>_info.json` files under its data directory.

The model has five modules.

- `Wrappers` holds `Option`.
- `PyText` models the Python string operations the portal relies on:
  - `str.isspace` with Python's full whitespace set, which `strip` removes;
  - `startswith`, `endswith` and `split`;
  - `int()` on a string, which accepts a sign and surrounding whitespace, but
    not the ASCII separators U+001C to U+001F that `isspace` includes;
  - `str()` of an integer.
- `AttendeeIds` covers `_get_next_id`:
  - how one file name contributes an id, or is skipped by one of the `except` paths;
  - the `max` fold over those ids, given as a reference function `NextIdOf`;
  - the nested loop over the `os.walk` listing, as the method `NextId` proved against `NextIdOf`.
- `CaptureLoop` covers the photo loop. The webcam and keyboard are a trace of
  loop iterations: either a failed `cap.read()`, or a frame together with the
  raw `cv2.waitKey` code. The method `CapturePhotos` runs the loop and is
  proved against the reference count `PhotosTaken`.
- `Portal` covers the rest:
  - the class `RegistrationPortal`, whose field `attendeeCounter` is updated in place;
  - `capture_new_member` as `CaptureNewMember`, tied to the pure outcome `RegistrationOf`;
  - a sequence of menu choices "1" as `RunSession`;
  - the consequences over a session and over a restart.

Outside effects become parameters:
- The listing that `os.walk` produces is a sequence of per-directory file-name lists.
- The three typed lines are strings.
- Whether `cv2.VideoCapture(0)` opened is a boolean.
- The capture loop's observations are a sequence of `Event`s.
- Files written are the records they would contain. A path is the list of its
  `os.path.join` components.

Ids are not guaranteed unique across restarts, and allocation can leave gaps:
- The code uses up an id whenever the name is non-empty, even when the webcam
  does not open or no photo is taken. Such ids leave gaps within a session
  (`RegistrationOutcomes`, `SessionIdsConsecutive`).
- The counter is rebuilt only from metadata files. A portal restarted right
  after such a failed call hands the same id out again (`RestartNextId`). If a
  later call in the same session did write metadata, the restart starts past
  that id instead, and the failed id is never issued again.

## Model

| member | source | states |
|---|---|---|
| AttendeeIds.NextId | scripts/registration_portal.py:18-31 | the nested walk loop returns exactly `NextIdOf` of the names walked, directory after directory, and the result is at least 1 |
| AttendeeIds.ScanDirectory | scripts/registration_portal.py:23-29 | the loop over one directory's files carries `max_id` to the fold's value over the names seen so far plus these files |
| AttendeeIds.NextIdAboveAll | scripts/registration_portal.py:20-31 | the next id is at least 1 and greater than every id any walked name contributes |
| AttendeeIds.NextIdAttained | scripts/registration_portal.py:20-31 | the next id is either 1 or one more than an id some walked name contributes, so it is the least value above all of them |
| AttendeeIds.NextIdIsOne | scripts/registration_portal.py:20-31 | the next id is 1 exactly when no walked name contributes a positive id; this includes an empty or missing data directory |
| AttendeeIds.NextIdSameQualifying | scripts/registration_portal.py:22-29 | two walks whose qualifying names are the same give the same next id, whatever else they contain |
| AttendeeIds.NextIdSameNames | scripts/registration_portal.py:22-29 | the next id depends only on the set of names walked, not on walk order or repetition |
| AttendeeIds.SkippedNameLeavesNextId | scripts/registration_portal.py:24-29 | inserting a name that does not qualify, or whose field is not an integer, anywhere in the walk leaves the next id unchanged |
| AttendeeIds.NonPositiveIdIgnored | scripts/registration_portal.py:20-27 | a file carrying an id of 0 or below cannot change the result, since `max_id` starts at 0 |
| AttendeeIds.SkipReasons | scripts/registration_portal.py:24-29 | a name is skipped when it lacks the `attendee_` prefix, lacks the `_info.json` suffix, or has a second `_` field that `int()` rejects; a prefixed name always has a second field, so `IndexError` cannot arise |
| AttendeeIds.ParseMetaName | scripts/registration_portal.py:24-26 | a name `attendee_<f>_info.json` whose field `f` has no underscore contributes exactly what `int(f)` gives |
| AttendeeIds.ParseMetaFileName | scripts/registration_portal.py:124-125 | the metadata file name written for any id is read back by the scan as exactly that id |
| AttendeeIds.PhotoFileIgnored | scripts/registration_portal.py:88 | a saved photo file name, which ends in `.jpg`, never contributes an id |
| AttendeeIds.SharedUnderscoreSkipped | scripts/registration_portal.py:24-29 | `attendee_info.json` passes both the prefix and the suffix test, because they share the underscore, but its field `info.json` is not an integer, so it is skipped |
| AttendeeIds.ExtraFieldsIgnored | scripts/registration_portal.py:26 | `attendee_1_2_info.json` contributes 1: only the second `_` field is read |
| AttendeeIds.PaddedSignedField | scripts/registration_portal.py:26 | a field made of padding that `int()` skips (tab, line feed, vertical tab, form feed, carriage return, space, non-ASCII whitespace), an optional `+` or `-` sign and digits contributes the signed value |
| AttendeeIds.SeparatorPaddedFieldSkipped | scripts/registration_portal.py:26-29 | `attendee_\x1c5_info.json` is skipped: U+001C is whitespace to `strip()` but `int()` rejects it, and the `except` swallows the error |
| AttendeeIds.ParseAttendeeId | scripts/registration_portal.py:24-29 | the per-file test and conversion, fixed by `SkipReasons` (each way a name is skipped), `ParseMetaName` (a well-formed name gives `int()` of its field), `ParseMetaFileName`, `PhotoFileIgnored`, `SharedUnderscoreSkipped`, `ExtraFieldsIgnored`, `PaddedSignedField` and `SeparatorPaddedFieldSkipped` |
| AttendeeIds.MetaFileName | scripts/registration_portal.py:124-125 | the metadata file name `attendee_<id>_info.json`; `ParseMetaFileName` proves the scan reads it back as the id |
| AttendeeIds.NextIdOf | scripts/registration_portal.py:20-31 | the value `_get_next_id` returns for a list of walked names; `NextIdAboveAll` and `NextIdAttained` fix it as one more than the maximum of 0 and the contributed ids |
| PyText.StartsWith | scripts/registration_portal.py:24 | `str.startswith`, characterised by `StartsWithPrefix` |
| PyText.EndsWith | scripts/registration_portal.py:24 | `str.endswith`, characterised by `EndsWithSuffix` |
| PyText.StartsWithPrefix | scripts/registration_portal.py:24 | `startswith` holds exactly when the string is at least as long as the prefix and begins with it |
| PyText.EndsWithSuffix | scripts/registration_portal.py:24 | `endswith` holds exactly when the string is at least as long as the suffix and ends with it |
| PyText.Split | scripts/registration_portal.py:26 | `str.split` on one separator character, characterised by `SplitShape` and inverted by `JoinSplit` |
| PyText.SplitShape | scripts/registration_portal.py:26 | `split` always returns at least one piece, returns two or more exactly when the separator occurs, and no piece contains the separator |
| PyText.JoinSplit | scripts/registration_portal.py:26 | joining the pieces of `split` with the separator gives back the original string |
| PyText.ParseFormatInt | scripts/registration_portal.py:125 | `int()` of the decimal text of any integer gives that integer back, and that text contains no underscore |
| PyText.FormatNat | scripts/registration_portal.py:57 | the decimal text of a natural number is non-empty, all digits, denotes that number, and has a leading zero only for 0 |
| PyText.ParsePaddedInt | scripts/registration_portal.py:26 | `int()` accepts its own whitespace (ASCII tab to carriage return, space, non-ASCII whitespace) on both sides of an optional sign and digits, giving the signed value |
| PyText.SeparatorNotIntSpace | scripts/registration_portal.py:26 | U+001C is removed by `strip()` but makes `int()` fail: `"\x1c5".strip()` is `"5"` while `int("\x1c5")` raises |
| PyText.ParseInt | scripts/registration_portal.py:26 | `int()` on a string, fixed by `ParseFormatInt` (it inverts `str()`), `ParsePaddedInt` (padding and sign accepted) and `SeparatorNotIntSpace` (the separators rejected) |
| PyText.FormatInt | scripts/registration_portal.py:125 | the decimal text an f-string writes for an integer; `ParseFormatInt` proves `int()` reads it back and that it has no underscore |
| PyText.IsSpace | scripts/registration_portal.py:40-42 | the whitespace `str.strip()` removes, Python's `str.isspace` set; `StripEmptyIffBlank` ties the name check to it |
| PyText.IsIntSpace | scripts/registration_portal.py:26 | the whitespace `int()` skips: `isspace` without U+001C to U+001F; `ParsePaddedInt` shows it is skipped and `SeparatorNotIntSpace` shows the separators are not |
| PyText.Strip | scripts/registration_portal.py:40-42 | `str.strip()` over the full `str.isspace` set, characterised by `StripEmptyIffBlank` and `StripUnchanged` |
| PyText.StripEmptyIffBlank | scripts/registration_portal.py:40-46 | a stripped string is empty exactly when every character of the input is whitespace |
| PyText.StripUnchanged | scripts/registration_portal.py:40-42 | stripping, with either the `strip()` or the `int()` whitespace, leaves a string with no such whitespace at either end unchanged |
| CaptureLoop.KeyOf | scripts/registration_portal.py:83 | the masked key is the raw code's low byte, in 0..255 |
| CaptureLoop.BeforeStop | scripts/registration_portal.py:69-97 | the iterations the loop handles before a failed read or a `q` press are a prefix of the trace, contain no stop, and are followed by a stop when they do not cover the whole trace |
| CaptureLoop.PhotosTaken | scripts/registration_portal.py:66-97 | the photo count the loop ends with; `CapturePhotos` runs the loop and is proved equal to it, and `OnlyCaptureKeysCount`, `StopEndsCapture` and `OtherKeyIgnored` characterise it |
| CaptureLoop.CapturePhotos | scripts/registration_portal.py:66-97 | the loop's final `photos_taken` equals `PhotosTaken`: the number of `c` frames before the first failed read or `q` press, capped at five |
| CaptureLoop.OnlyCaptureKeysCount | scripts/registration_portal.py:67-93 | at most five photos are taken, never more than there are `c` presses, and none without a `c` press |
| CaptureLoop.StopEndsCapture | scripts/registration_portal.py:71-72 | after a failed read or a `q` press nothing later in the trace matters |
| CaptureLoop.OtherKeyIgnored | scripts/registration_portal.py:83-97 | inserting a frame whose key is neither `c` nor `q` (including "no key", -1) anywhere in the trace leaves the photo count unchanged |
| CaptureLoop.KeyMasking | scripts/registration_portal.py:83-85 | -1 (no key) is neither `c` nor `q`, and a code whose low byte is `c` captures even with higher bits set |
| CaptureLoop.CaptureExamples | scripts/registration_portal.py:67-97 | six `c` presses in a row give five photos; a `q` first gives none |
| Portal.RegistrationOf | scripts/registration_portal.py:40-125 | the outcome of one `capture_new_member` call, characterised branch by branch by `RegistrationOutcomes` |
| Portal.MemberDir | scripts/registration_portal.py:57 | the photo directory `pending/photos/attendee_<id>` as path components; `RegistrationOutcomes` proves the metadata records it |
| Portal.MetaFilePath | scripts/registration_portal.py:124-125 | the metadata path `pending/metadata/attendee_<id>_info.json` as path components; `RegistrationOutcomes` proves its file name reads back as the id |
| Portal.RegistrationOutcomes | scripts/registration_portal.py:40-136 | the name check fails exactly for an all-whitespace name, before any id is taken; otherwise the id is the old counter value even when registration then fails; a webcam that does not open ends the call with no capture; metadata is written exactly when the webcam opened and at least one photo was taken, with the stripped name, e-mail and phone, status `pending`, approval required, between 1 and 5 photos, and a metadata file name that reads back as the id; the call returns the id on success and `None` otherwise |
| Portal.Returned | scripts/registration_portal.py:136 | the Python return value: the id after a completed registration, `None` after each early `return` (lines 46, 64 and 109); fixed by `RegistrationOutcomes` |
| Portal.WrittenMetaFiles | scripts/registration_portal.py:124-127 | the metadata file a call leaves for a later directory walk: one name exactly for a completed registration; `RestartNextId` shows how a rescan reads it |
| Portal.RestartNextId | scripts/registration_portal.py:16-31 | after the first id-consuming call of a freshly started portal (whose id is the scanned next id), a restarted portal's starting id is one past that id when metadata was written and the same id otherwise; the photos saved never change it. Later calls are not covered by this lemma |
| Portal.SkippedNamesLeaveNextId | scripts/registration_portal.py:24-29 | appending any number of `.jpg` names to the walk leaves the next id unchanged |
| Portal.SessionIdsConsecutive | scripts/registration_portal.py:44-50 | over successive calls, the ids used up are consecutive from the starting counter, so strictly increasing and never repeated; the counter ends just past the last one |
| Portal.SessionRun | scripts/registration_portal.py:182-194 | the outcomes and final counter of menu choice 1 made once per request; `RunSession` is proved equal to it and `SessionIdsConsecutive` characterises the ids it issues |
| Portal.RegistrationPortal.constructor | scripts/registration_portal.py:14-16 | the counter starts at `NextIdOf` of the walked data directory, which is at least 1 |
| Portal.RegistrationPortal.CaptureNewMember | scripts/registration_portal.py:33-136 | the outcome is `RegistrationOf` the old counter and the inputs; the counter is unchanged for a blank name and incremented otherwise |
| Portal.RegistrationPortal.RunSession | scripts/registration_portal.py:182-194 | repeated menu choice 1 gives the outcomes and final counter of `SessionRun` |

## Left out

- Console output (`print`), the webcam image, `cv2.putText`, `cv2.imshow` and the JPEG files themselves are not modelled. Only the decisions they feed are kept: whether the webcam opened, whether a read failed, and which key was pressed.
- The timestamps from `datetime.now()` are left out: `registration_date` in the metadata, and the `%H%M%S` part of each photo's file name. `RestartNextId` takes the photo names as arbitrary names ending in `.jpg`.
- Filesystem effects are outside the model:
  - `os.makedirs`, the `os.rmdir` of an empty photo directory, writing the JSON file, and I/O errors.
  - An I/O error while writing the metadata would leave the id used up without a file. The model treats a call that reaches that point as `Registered`.
  - Such an error is not rare. `registration_portal.py` creates only the member's photo directory (line 58), not `pending/metadata`. Unless another component has created that directory, `open(meta_file, "w")` at line 126 raises `FileNotFoundError` on a fresh data directory. The exception is also not caught by the menu loop (line 194).
- `os.path.join` is modelled as the list of its components. Separators and normalisation are not modelled.
- `int()` accepts only ASCII digits here. Python also accepts other Unicode decimal digits and underscores between digits. The whitespace it skips is modelled exactly.
  - The scan is unaffected by underscores, because `split("_")` has already removed them.
- When the event trace runs out before five photos and before a stop, the loop stops as if the stream had ended. The Python loop would go on waiting for frames.
- `list_pending_registrations` is not part of this model: it only reads and prints the metadata files.
- `approve_registration` is not part of this model: it delegates to `OrganizedFaceModel.approve_attendee`, which is not part of this model.
- The menu loop in `__main__` is modelled only for choice "1" (`RunSession`). Choices 2 to 4, and invalid input, do not touch the counter.
- Concurrency is not modelled: two portals sharing one data directory could hand out the same id.
