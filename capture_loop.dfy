/**
 * The photo-capture loop of `capture_new_member`: up to five photos, one per
 * `c` key press, stopping early on `q` or when the webcam read fails. The
 * webcam and the window are replaced by the trace of what each iteration
 * observed.
 */
module CaptureLoop {
  const MaxPhotos: nat := 5
  const KeyCapture: int := 99   // ord('c')
  const KeyQuit: int := 113     // ord('q')

  /** What one iteration of the loop observes: a failed `cap.read()`, or a
      frame together with the raw value `cv2.waitKey(1)` returned (-1 when no
      key was pressed). */
  datatype Event = ReadFail | Frame(rawKey: int)

  /** `cv2.waitKey(1) & 0xFF`. Python's `&` on a negative int acts on the
      two's-complement form, which for the mask 0xFF is the floor remainder
      modulo 256; Dafny's `%` by a positive divisor is the same remainder. */
  function KeyOf(rawKey: int): (k: int)
    ensures 0 <= k < 256
  {
    rawKey % 256
  }

  /** An iteration that ends the loop by itself, without a photo. */
  predicate IsStop(e: Event) {
    e.ReadFail? || KeyOf(e.rawKey) == KeyQuit
  }

  /** An iteration that saves a photo. */
  predicate IsCapture(e: Event) {
    e.Frame? && KeyOf(e.rawKey) == KeyCapture
  }

  /** The events before the first stopping one. */
  function BeforeStop(events: seq<Event>): (p: seq<Event>)
    ensures p <= events
    ensures forall k :: 0 <= k < |p| ==> !IsStop(p[k])
    ensures |p| < |events| ==> IsStop(events[|p|])
  {
    if events == [] || IsStop(events[0]) then []
    else [events[0]] + BeforeStop(events[1..])
  }

  /** How many events in `events` are `c` key presses on a good frame. */
  function CaptureCount(events: seq<Event>): nat {
    if events == [] then 0
    else CaptureCount(events[..|events| - 1]) + (if IsCapture(events[|events| - 1]) then 1 else 0)
  }

  function Min(a: int, b: int): int {
    if a <= b then a else b
  }

  /** The number of photos the loop saves, stated without the loop: the `c`
      presses before the first `q` or failed read, capped at five. */
  function PhotosTaken(events: seq<Event>): nat {
    Min(MaxPhotos, CaptureCount(BeforeStop(events)))
  }

  lemma CaptureCountSnoc(events: seq<Event>, e: Event)
    ensures CaptureCount(events + [e]) == CaptureCount(events) + (if IsCapture(e) then 1 else 0)
  {
    assert (events + [e])[..|events|] == events;
  }

  /** Counting over a prefix never gives more. */
  lemma {:induction false} CaptureCountPrefix(p: seq<Event>, events: seq<Event>)
    requires p <= events
    ensures CaptureCount(p) <= CaptureCount(events)
    decreases |events|
  {
    if |p| < |events| {
      var init := events[..|events| - 1];
      assert p <= init;
      CaptureCountPrefix(p, init);
    } else {
      assert p == events;
    }
  }

  /** Counting distributes over concatenation. */
  lemma {:induction false} CaptureCountAppend(a: seq<Event>, b: seq<Event>)
    ensures CaptureCount(a + b) == CaptureCount(a) + CaptureCount(b)
    decreases |b|
  {
    if b == [] {
      assert a + b == a;
    } else {
      var b0 := b[..|b| - 1];
      CaptureCountAppend(a, b0);
      assert a + b == (a + b0) + [b[|b| - 1]];
      CaptureCountSnoc(a + b0, b[|b| - 1]);
    }
  }

  /** A prefix free of stopping events is a prefix of `BeforeStop`. */
  lemma {:induction false} NoStopPrefix(events: seq<Event>, i: int)
    requires 0 <= i <= |events|
    requires forall k :: 0 <= k < i ==> !IsStop(events[k])
    ensures events[..i] <= BeforeStop(events)
  {
    if i > 0 {
      NoStopPrefix(events[1..], i - 1);
      assert events[..i] == [events[0]] + events[1..][..i - 1];
    }
  }

  /** `BeforeStop` is the longest prefix free of stopping events. */
  lemma {:induction false} StopAt(events: seq<Event>, i: int)
    requires 0 <= i < |events|
    requires forall k :: 0 <= k < i ==> !IsStop(events[k])
    requires IsStop(events[i])
    ensures BeforeStop(events) == events[..i]
  {
    if i > 0 {
      StopAt(events[1..], i - 1);
      assert events[..i] == [events[0]] + events[1..][..i - 1];
    }
  }

  lemma {:induction false} NoStopAtAll(events: seq<Event>)
    requires forall k :: 0 <= k < |events| ==> !IsStop(events[k])
    ensures BeforeStop(events) == events
  {
    if events != [] {
      NoStopAtAll(events[1..]);
    }
  }

  /** The loop of `capture_new_member` (lines 66-97), over the observed events;
      the trace running out ends the loop like the stream ending. Returns
      `photos_taken`. */
  method CapturePhotos(events: seq<Event>) returns (photosTaken: nat)
    ensures photosTaken == PhotosTaken(events)
  {
    photosTaken := 0;
    var i := 0;
    while photosTaken < MaxPhotos && i < |events|
      invariant 0 <= i <= |events|
      invariant forall k :: 0 <= k < i ==> !IsStop(events[k])
      invariant photosTaken == CaptureCount(events[..i]) <= MaxPhotos
      decreases |events| - i
    {
      var e := events[i];
      if e.ReadFail? {
        StopAt(events, i);
        return;
      }
      var key := KeyOf(e.rawKey);
      if key == KeyCapture {
        photosTaken := photosTaken + 1;
      } else if key == KeyQuit {
        StopAt(events, i);
        return;
      }
      assert events[..i + 1] == events[..i] + [e];
      CaptureCountSnoc(events[..i], e);
      i := i + 1;
    }
    if photosTaken < MaxPhotos {
      assert events[..i] == events;
      NoStopAtAll(events);
    } else {
      NoStopPrefix(events, i);
      CaptureCountPrefix(events[..i], BeforeStop(events));
    }
  }

  /** Never more than five photos, and only `c` presses count: without one
      no photo is taken, and there are never more photos than `c` presses. */
  lemma OnlyCaptureKeysCount(events: seq<Event>)
    ensures PhotosTaken(events) <= MaxPhotos
    ensures PhotosTaken(events) <= CaptureCount(events)
    ensures CaptureCount(events) == 0 ==> PhotosTaken(events) == 0
  {
    CaptureCountPrefix(BeforeStop(events), events);
  }

  /** A `q` press or a failed read ends the loop: nothing after it matters. */
  lemma {:induction false} StopEndsCapture(a: seq<Event>, e: Event, b: seq<Event>)
    requires IsStop(e)
    ensures BeforeStop(a + [e] + b) == BeforeStop(a)
    ensures PhotosTaken(a + [e] + b) == PhotosTaken(a)
  {
    if a == [] {
      assert a + [e] + b == [e] + b;
    } else if IsStop(a[0]) {
      assert (a + [e] + b)[0] == a[0];
    } else {
      assert (a + [e] + b)[1..] == a[1..] + [e] + b;
      StopEndsCapture(a[1..], e, b);
    }
  }

  /** A frame with any other key (or none) neither saves a photo nor stops. */
  lemma OtherKeyIgnored(a: seq<Event>, e: Event, b: seq<Event>)
    requires !IsStop(e) && !IsCapture(e)
    ensures PhotosTaken(a + [e] + b) == PhotosTaken(a + b)
  {
    OtherKeyIgnoredCount(a, e, b);
  }

  lemma {:induction false} OtherKeyIgnoredCount(a: seq<Event>, e: Event, b: seq<Event>)
    requires !IsStop(e) && !IsCapture(e)
    ensures CaptureCount(BeforeStop(a + [e] + b)) == CaptureCount(BeforeStop(a + b))
  {
    if a == [] {
      assert a + [e] + b == [e] + b;
      assert a + b == b;
      assert BeforeStop([e] + b) == [e] + BeforeStop(b);
      CaptureCountAppend([e], BeforeStop(b));
      assert CaptureCount([e]) == 0 by { assert [e][..0] == []; }
    } else if IsStop(a[0]) {
      assert (a + [e] + b)[0] == a[0];
      assert (a + b)[0] == a[0];
    } else {
      assert (a + [e] + b)[1..] == a[1..] + [e] + b;
      assert (a + b)[1..] == a[1..] + b;
      OtherKeyIgnoredCount(a[1..], e, b);
      var p1, p2 := BeforeStop(a[1..] + [e] + b), BeforeStop(a[1..] + b);
      assert BeforeStop(a + [e] + b) == [a[0]] + p1;
      assert BeforeStop(a + b) == [a[0]] + p2;
      CaptureCountAppend([a[0]], p1);
      CaptureCountAppend([a[0]], p2);
    }
  }

  /** `waitKey` returning -1 (no key pressed) is neither `c` nor `q`; a raw
      code whose low byte is `c`, such as one carrying modifier bits, captures. */
  lemma KeyMasking()
    ensures !IsStop(Frame(-1)) && !IsCapture(Frame(-1))
    ensures IsCapture(Frame(0x10000 + KeyCapture))
  {
  }

  /** Six `c` presses in a row give five photos; a `q` first gives none. */
  lemma CaptureExamples()
    ensures PhotosTaken(seq(6, _ => Frame(KeyCapture))) == MaxPhotos
    ensures PhotosTaken([Frame(KeyQuit)] + seq(6, _ => Frame(KeyCapture))) == 0
  {
    var cs := seq(6, _ => Frame(KeyCapture));
    NoStopAtAll(cs);
    CountAllCaptures(cs);
    StopEndsCapture([], Frame(KeyQuit), cs);
  }

  lemma {:induction false} CountAllCaptures(events: seq<Event>)
    requires forall k :: 0 <= k < |events| ==> IsCapture(events[k])
    ensures CaptureCount(events) == |events|
  {
    if events != [] {
      CountAllCaptures(events[..|events| - 1]);
    }
  }
}
