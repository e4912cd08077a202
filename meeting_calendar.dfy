/** The meeting scheduler page: a list of availability entries that the user
    toggles or deletes, a list of meeting requests that the user accepts or
    declines, and the list of calendar events built from both. */
module MeetingCalendar {
  import Text

  /** One declared free slot: a date string and a slot label. */
  datatype Availability = Availability(date: string, time: string)

  datatype RequestStatus = Pending | Accepted | Declined

  datatype MeetingRequest = MeetingRequest(
    id: int, title: string, person: string, date: string, time: string, status: RequestStatus)

  /** Start and end timestamps as the `"<date>T<HH:MM>:00"` texts handed to `Date`. */
  datatype EventTimes = EventTimes(start: string, end: string)

  /** One entry of the calendar's event list (colours left out). */
  datatype CalendarEvent = CalendarEvent(title: string, start: string, end: string)

  /** The fixed slot catalogue. */
  const TimeSlots: seq<string> :=
    ["09:00 - 10:00", "10:00 - 11:00", "11:00 - 12:00", "14:00 - 15:00", "15:00 - 16:00"]

  /** The request list the page starts with. */
  const SeedRequests: seq<MeetingRequest> := [
    MeetingRequest(1, "Business Discussion", "John Doe", "2026-01-02", "11:00 - 12:00", Pending),
    MeetingRequest(2, "Project Review", "Jane Smith", "2026-01-04", "15:00 - 16:00", Accepted)
  ]

  /** The label separator of a slot. */
  const SlotSeparator: string := " - "

  // ---------------------------------------------------------------------------
  // Sequence vocabulary

  /** `a` is `b` with some elements left out, the rest in their order. */
  ghost predicate Subsequence<T>(a: seq<T>, b: seq<T>)
    decreases |b|
  {
    a == [] || (b != [] && if a[0] == b[0] then Subsequence(a[1..], b[1..]) else Subsequence(a, b[1..]))
  }

  ghost predicate NoDuplicates<T>(s: seq<T>)
  {
    forall i, j :: 0 <= i < j < |s| ==> s[i] != s[j]
  }

  ghost predicate UniqueIds(reqs: seq<MeetingRequest>)
  {
    forall i, j :: 0 <= i < j < |reqs| ==> reqs[i].id != reqs[j].id
  }

  // ---------------------------------------------------------------------------
  // Availability

  /** The availability list with every entry equal to `e` taken out, the
      remaining entries in their order. */
  function RemoveEntry(av: seq<Availability>, e: Availability): (r: seq<Availability>)
    ensures multiset(r) == multiset(av)[e := 0]
    ensures Subsequence(r, av)
    decreases |av|
  {
    if av == [] then []
    else
      var rest := RemoveEntry(av[1..], e);
      assert av == [av[0]] + av[1..];
      if av[0] == e then
        assert multiset(rest)[e] == 0;
        rest
      else
        assert ([av[0]] + rest)[1..] == rest;
        [av[0]] + rest
  }

  /** The list after `toggleSlot(date, time)`. Absent pair: appended at the end.
      Present pair: every entry equal to it removed, the others kept in order. */
  function Toggled(av: seq<Availability>, date: string, time: string): (r: seq<Availability>)
    ensures Availability(date, time) !in av ==> r == av + [Availability(date, time)]
    ensures Availability(date, time) in av ==>
              Availability(date, time) !in r && Subsequence(r, av) &&
              forall x :: x != Availability(date, time) ==> multiset(r)[x] == multiset(av)[x]
  {
    var e := Availability(date, time);
    if e in av then
      var r := RemoveEntry(av, e);
      assert multiset(r)[e] == 0;
      r
    else av + [e]
  }

  /** The list without its entry at position `i` (unchanged when `i` is no
      position), walking the list with `i` counted down as the index goes up. */
  function WithoutIndex<T>(s: seq<T>, i: int): (r: seq<T>)
    ensures 0 <= i < |s| ==> r == s[..i] + s[i + 1..]
    ensures !(0 <= i < |s|) ==> r == s
    decreases |s|
  {
    if s == [] then []
    else (if i == 0 then [] else [s[0]]) + WithoutIndex(s[1..], i - 1)
  }

  lemma {:induction false} RemoveEntryKeepsNoDuplicates(av: seq<Availability>, e: Availability)
    requires NoDuplicates(av)
    ensures NoDuplicates(RemoveEntry(av, e))
    decreases |av|
  {
    if av != [] {
      assert NoDuplicates(av[1..]) by {
        forall i, j | 0 <= i < j < |av[1..]| ensures av[1..][i] != av[1..][j] {
          assert av[1..][i] == av[i + 1] && av[1..][j] == av[j + 1];
        }
      }
      RemoveEntryKeepsNoDuplicates(av[1..], e);
      var rest := RemoveEntry(av[1..], e);
      if av[0] != e {
        assert av[0] !in av[1..] by {
          forall j | 0 <= j < |av[1..]| ensures av[1..][j] != av[0] {
            assert av[1..][j] == av[j + 1];
          }
        }
        assert multiset(rest)[av[0]] == 0;
        assert forall j :: 0 < j < |[av[0]] + rest| ==> ([av[0]] + rest)[j] == rest[j - 1];
      }
    }
  }

  /** No sequence of toggles creates a duplicate entry. */
  lemma ToggleKeepsNoDuplicates(av: seq<Availability>, date: string, time: string)
    requires NoDuplicates(av)
    ensures NoDuplicates(Toggled(av, date, time))
  {
    var e := Availability(date, time);
    if e in av {
      RemoveEntryKeepsNoDuplicates(av, e);
    }
  }

  /** Toggling the same pair twice restores the membership of every pair; if the
      pair was absent, it restores the list exactly. */
  lemma ToggleTwice(av: seq<Availability>, date: string, time: string)
    ensures var twice := Toggled(Toggled(av, date, time), date, time);
            (forall x :: x in twice <==> x in av) &&
            (Availability(date, time) !in av ==> twice == av)
  {
    var e := Availability(date, time);
    var once := Toggled(av, date, time);
    if e in av {
      assert forall x :: x != e ==> (x in once <==> x in av) by {
        forall x | x != e ensures x in once <==> x in av {
          assert multiset(once)[x] == multiset(av)[x];
        }
      }
    } else {
      assert e in once;
      var twice := Toggled(once, date, time);
      assert multiset(twice) == multiset(av);
      assert Subsequence(twice, once);
      RemoveLastOfAppend(av, e);
    }
  }

  /** Removing from `s + [e]` every `e`, when `s` holds none, gives `s`. */
  lemma {:induction false} RemoveLastOfAppend(s: seq<Availability>, e: Availability)
    requires e !in s
    ensures RemoveEntry(s + [e], e) == s
    decreases |s|
  {
    if s != [] {
      assert (s + [e])[1..] == s[1..] + [e];
      RemoveLastOfAppend(s[1..], e);
      assert [s[0]] + s[1..] == s;
    }
  }

  /** Deleting an entry keeps the list free of duplicates. */
  lemma DeleteKeepsNoDuplicates(av: seq<Availability>, i: int)
    requires NoDuplicates(av)
    ensures NoDuplicates(WithoutIndex(av, i))
  {
  }

  // ---------------------------------------------------------------------------
  // Meeting requests

  /** The request list with every request carrying `id` given the new status,
      the other requests kept as they are. */
  function Respond(reqs: seq<MeetingRequest>, id: int, status: RequestStatus): (r: seq<MeetingRequest>)
    ensures |r| == |reqs|
    ensures forall k :: 0 <= k < |r| ==>
              r[k] == if reqs[k].id == id then reqs[k].(status := status) else reqs[k]
    decreases |reqs|
  {
    if reqs == [] then []
    else
      var head := if reqs[0].id == id then reqs[0].(status := status) else reqs[0];
      [head] + Respond(reqs[1..], id, status)
  }

  /** A request with the given id is shown with its Accept/Decline buttons. */
  function OfferedForResponse(reqs: seq<MeetingRequest>, id: int): (offered: bool)
    ensures offered <==> exists k :: 0 <= k < |reqs| && reqs[k].id == id && reqs[k].status == Pending
    decreases |reqs|
  {
    if reqs == [] then false
    else
      var rest := OfferedForResponse(reqs[1..], id);
      assert forall k :: 0 < k < |reqs| ==> reqs[k] == reqs[1..][k - 1];
      (reqs[0].id == id && reqs[0].status == Pending) || rest
  }

  /** Answering a pending request never sets `pending`, and leaves every
      accepted or declined request exactly as it was. */
  lemma RespondKeepsDecided(reqs: seq<MeetingRequest>, id: int, status: RequestStatus)
    requires UniqueIds(reqs) && OfferedForResponse(reqs, id) && status != Pending
    ensures var r := Respond(reqs, id, status);
            UniqueIds(r) &&
            (forall k :: 0 <= k < |r| && reqs[k].status != Pending ==> r[k] == reqs[k]) &&
            (forall k :: 0 <= k < |r| && r[k].status == Pending ==> reqs[k].status == Pending)
  {
  }

  /** The accepted requests, in request order. */
  function Confirmed(reqs: seq<MeetingRequest>): (r: seq<MeetingRequest>)
    ensures Subsequence(r, reqs)
    ensures forall m :: m in r ==> m.status == Accepted
    ensures forall m: MeetingRequest :: m.status == Accepted ==> multiset(r)[m] == multiset(reqs)[m]
    decreases |reqs|
  {
    if reqs == [] then []
    else
      var rest := Confirmed(reqs[1..]);
      assert reqs == [reqs[0]] + reqs[1..];
      if reqs[0].status == Accepted then
        assert ([reqs[0]] + rest)[1..] == rest;
        [reqs[0]] + rest
      else
        assert reqs[0] !in rest;
        rest
  }

  /** Declining a request that is not accepted leaves the confirmed meetings,
      and therefore the calendar, as they were. */
  lemma {:induction false} DeclineKeepsConfirmed(reqs: seq<MeetingRequest>, id: int)
    requires forall k :: 0 <= k < |reqs| && reqs[k].id == id ==> reqs[k].status != Accepted
    ensures Confirmed(Respond(reqs, id, Declined)) == Confirmed(reqs)
    decreases |reqs|
  {
    if reqs != [] {
      var r := Respond(reqs, id, Declined);
      assert r[1..] == Respond(reqs[1..], id, Declined);
      DeclineKeepsConfirmed(reqs[1..], id);
    }
  }

  /** Declining a pending request (ids unique) leaves the event list unchanged. */
  lemma DeclineKeepsCalendar(reqs: seq<MeetingRequest>, av: seq<Availability>, id: int)
    requires UniqueIds(reqs) && OfferedForResponse(reqs, id)
    ensures CalendarEvents(Respond(reqs, id, Declined), av) == CalendarEvents(reqs, av)
  {
    var p :| 0 <= p < |reqs| && reqs[p].id == id && reqs[p].status == Pending;
    forall k | 0 <= k < |reqs| && reqs[k].id == id ensures reqs[k].status != Accepted {
      assert k == p;
    }
    DeclineKeepsConfirmed(reqs, id);
  }

  /** Accepting request `id` (pending, ids unique) inserts it, as accepted, into
      the confirmed meetings at the place its position in the request list gives. */
  lemma AcceptConfirms(reqs: seq<MeetingRequest>, id: int, p: nat)
    requires UniqueIds(reqs) && p < |reqs| && reqs[p].id == id && reqs[p].status == Pending
    ensures Confirmed(Respond(reqs, id, Accepted)) ==
              Confirmed(reqs[..p]) + [reqs[p].(status := Accepted)] + Confirmed(reqs[p + 1..])
  {
    var before, after := reqs[..p], reqs[p + 1..];
    assert reqs == before + [reqs[p]] + after;
    forall k | 0 <= k < |before| ensures before[k].id != id {
      assert before[k] == reqs[k];
    }
    forall k | 0 <= k < |after| ensures after[k].id != id {
      assert after[k] == reqs[p + 1 + k];
    }
    RespondWithoutId(before, id, Accepted);
    RespondWithoutId(after, id, Accepted);
    var accepted := reqs[p].(status := Accepted);
    RespondAppend(before + [reqs[p]], after, id, Accepted);
    RespondAppend(before, [reqs[p]], id, Accepted);
    assert Respond([reqs[p]], id, Accepted) == [accepted];
    ConfirmedAppend(before + [accepted], after);
    ConfirmedAppend(before, [accepted]);
    assert Confirmed([accepted]) == [accepted] + Confirmed([]);
  }

  /** Answering maps each part of a list on its own. */
  lemma RespondAppend(a: seq<MeetingRequest>, b: seq<MeetingRequest>, id: int, status: RequestStatus)
    ensures Respond(a + b, id, status) == Respond(a, id, status) + Respond(b, id, status)
  {
  }

  /** The confirmed meetings of two lists in a row are those of each, in a row. */
  lemma {:induction false} ConfirmedAppend(a: seq<MeetingRequest>, b: seq<MeetingRequest>)
    ensures Confirmed(a + b) == Confirmed(a) + Confirmed(b)
    decreases |a|
  {
    if a != [] {
      assert a + b == [a[0]] + (a[1..] + b);
      assert (a + b)[0] == a[0] && (a + b)[1..] == a[1..] + b;
      ConfirmedAppend(a[1..], b);
    } else {
      assert a + b == b;
    }
  }

  /** Answering an id that no request carries changes nothing. */
  lemma {:induction false} RespondWithoutId(reqs: seq<MeetingRequest>, id: int, status: RequestStatus)
    requires forall k :: 0 <= k < |reqs| ==> reqs[k].id != id
    ensures Respond(reqs, id, status) == reqs
  {
    var r := Respond(reqs, id, status);
    assert forall k :: 0 <= k < |r| ==> r[k] == reqs[k];
  }

  // ---------------------------------------------------------------------------
  // Slots and calendar events

  /** `getEventDate`: the label is split on `" - "` and the two halves are put
      after `date + "T"`; a label without a second half yields the text
      `undefined` in its place, as a JavaScript template does. */
  function GetEventDate(date: string, time: string): (r: EventTimes)
    ensures |r.start| > |date| + 1 && r.start[..|date| + 1] == date + "T"
    ensures |r.end| > |date| + 1 && r.end[..|date| + 1] == date + "T"
  {
    var parts := Text.Split(time, SlotSeparator);
    var endText := if |parts| > 1 then parts[1] else "undefined";
    EventTimes(date + "T" + parts[0] + ":00", date + "T" + endText + ":00")
  }

  ghost predicate IsDigit(c: char) { '0' <= c <= '9' }

  ghost function DigitValue(c: char): int { c as int - '0' as int }

  /** `HH:MM` with hours below 24 and minutes below 60. */
  ghost predicate IsClock(t: string)
  {
    |t| == 5 && IsDigit(t[0]) && IsDigit(t[1]) && t[2] == ':' && IsDigit(t[3]) && IsDigit(t[4]) &&
    DigitValue(t[0]) * 10 + DigitValue(t[1]) < 24 && DigitValue(t[3]) * 10 + DigitValue(t[4]) < 60
  }

  /** Minutes since midnight of an `HH:MM` text. */
  ghost function ClockMinutes(t: string): int
    requires IsClock(t)
  {
    (DigitValue(t[0]) * 10 + DigitValue(t[1])) * 60 + DigitValue(t[3]) * 10 + DigitValue(t[4])
  }

  /** For a label `a - b` whose halves hold no space, start and end are the
      date combined with `a` and with `b`. */
  lemma SlotHalves(date: string, a: string, b: string)
    requires ' ' !in a && ' ' !in b
    ensures GetEventDate(date, a + SlotSeparator + b) ==
              EventTimes(date + "T" + a + ":00", date + "T" + b + ":00")
  {
    Text.SplitAfterPiece(a, SlotSeparator, b);
    Text.SplitWithoutSeparator(b, SlotSeparator);
  }

  /** A label without `" - "` gives an end text holding `undefined`. */
  lemma LabelWithoutSeparator(date: string, time: string)
    requires ' ' !in time
    ensures GetEventDate(date, time) == EventTimes(date + "T" + time + ":00", date + "T" + "undefined" + ":00")
  {
    Text.SplitWithoutSeparator(time, SlotSeparator);
  }

  /** Every catalogue label is its first five characters, `" - "`, and its last five. */
  lemma CatalogueLabelHalves(i: nat)
    requires i < |TimeSlots|
    ensures TimeSlots[i] == TimeSlots[i][..5] + SlotSeparator + TimeSlots[i][8..]
    ensures ' ' !in TimeSlots[i][..5] && ' ' !in TimeSlots[i][8..]
  {
  }

  /** The halves of every catalogue label are clock times, the first earlier. */
  lemma CatalogueClocksOrdered(i: nat)
    requires i < |TimeSlots|
    ensures IsClock(TimeSlots[i][..5]) && IsClock(TimeSlots[i][8..])
    ensures ClockMinutes(TimeSlots[i][..5]) < ClockMinutes(TimeSlots[i][8..])
  {
  }

  /** Every catalogue label is `a - b` with `a` and `b` clock times, `a` strictly
      before `b`, and `getEventDate` puts `a` in the start and `b` in the end. */
  lemma CatalogueSlotsWellFormed(date: string, i: nat)
    requires i < |TimeSlots|
    ensures var a, b := TimeSlots[i][..5], TimeSlots[i][8..];
            TimeSlots[i] == a + SlotSeparator + b &&
            IsClock(a) && IsClock(b) && ClockMinutes(a) < ClockMinutes(b) &&
            GetEventDate(date, TimeSlots[i]) == EventTimes(date + "T" + a + ":00", date + "T" + b + ":00")
  {
    var a, b := TimeSlots[i][..5], TimeSlots[i][8..];
    CatalogueLabelHalves(i);
    CatalogueClocksOrdered(i);
    SlotHalves(date, a, b);
  }

  /** The event of an accepted meeting: its title and its slot's times, both
      on the meeting's date. */
  function MeetingEvent(m: MeetingRequest): (e: CalendarEvent)
    ensures e.title == m.title
    ensures |e.start| > |m.date| + 1 && e.start[..|m.date| + 1] == m.date + "T"
    ensures |e.end| > |m.date| + 1 && e.end[..|m.date| + 1] == m.date + "T"
  {
    var t := GetEventDate(m.date, m.time);
    CalendarEvent(m.title, t.start, t.end)
  }

  /** The event of an availability entry, titled `Available`, its times on
      the entry's date. */
  function SlotEvent(a: Availability): (e: CalendarEvent)
    ensures e.title == "Available"
    ensures |e.start| > |a.date| + 1 && e.start[..|a.date| + 1] == a.date + "T"
    ensures |e.end| > |a.date| + 1 && e.end[..|a.date| + 1] == a.date + "T"
  {
    var t := GetEventDate(a.date, a.time);
    CalendarEvent("Available", t.start, t.end)
  }

  /** The `events` list: confirmed meetings first, then availability entries,
      each group in list order, unsorted. */
  function CalendarEvents(reqs: seq<MeetingRequest>, av: seq<Availability>): (r: seq<CalendarEvent>)
    ensures |r| == |Confirmed(reqs)| + |av|
    ensures forall k :: 0 <= k < |Confirmed(reqs)| ==> r[k].title == Confirmed(reqs)[k].title
    ensures forall k :: |Confirmed(reqs)| <= k < |r| ==> r[k].title == "Available"
  {
    var confirmed := Confirmed(reqs);
    seq(|confirmed|, k requires 0 <= k < |confirmed| => MeetingEvent(confirmed[k])) +
    seq(|av|, k requires 0 <= k < |av| => SlotEvent(av[k]))
  }

  /** How many requests are accepted. */
  function CountAccepted(reqs: seq<MeetingRequest>): nat
    decreases |reqs|
  {
    if reqs == [] then 0 else (if reqs[0].status == Accepted then 1 else 0) + CountAccepted(reqs[1..])
  }

  lemma {:induction false} ConfirmedLength(reqs: seq<MeetingRequest>)
    ensures |Confirmed(reqs)| == CountAccepted(reqs)
    decreases |reqs|
  {
    if reqs != [] {
      ConfirmedLength(reqs[1..]);
    }
  }

  /** The event list holds one event per accepted request, titled with its
      title and in request order, then one `Available` event per availability
      entry in list order; nothing else. */
  lemma CalendarShape(reqs: seq<MeetingRequest>, av: seq<Availability>)
    ensures var events := CalendarEvents(reqs, av);
            var confirmed := Confirmed(reqs);
            |events| == CountAccepted(reqs) + |av| &&
            (forall k :: 0 <= k < |confirmed| ==>
               confirmed[k].status == Accepted && events[k].title == confirmed[k].title &&
               (events[k].start, events[k].end) == (GetEventDate(confirmed[k].date, confirmed[k].time).start,
                                                    GetEventDate(confirmed[k].date, confirmed[k].time).end)) &&
            (forall k :: 0 <= k < |av| ==>
               events[|confirmed| + k] == CalendarEvent("Available", GetEventDate(av[k].date, av[k].time).start,
                                                        GetEventDate(av[k].date, av[k].time).end))
  {
    ConfirmedLength(reqs);
    var confirmed := Confirmed(reqs);
    forall k | 0 <= k < |confirmed| ensures confirmed[k].status == Accepted {
      assert confirmed[k] in confirmed;
    }
  }

  /** A request that is pending or declined contributes no event: adding one to
      the request list leaves the event list as it was. */
  lemma {:induction false} UndecidedAddsNoEvent(reqs: seq<MeetingRequest>, m: MeetingRequest, av: seq<Availability>)
    requires m.status != Accepted
    ensures CalendarEvents(reqs + [m], av) == CalendarEvents(reqs, av)
  {
    ConfirmedOfAppend(reqs, m);
  }

  lemma {:induction false} ConfirmedOfAppend(reqs: seq<MeetingRequest>, m: MeetingRequest)
    requires m.status != Accepted
    ensures Confirmed(reqs + [m]) == Confirmed(reqs)
    decreases |reqs|
  {
    if reqs != [] {
      assert (reqs + [m])[1..] == reqs[1..] + [m];
      ConfirmedOfAppend(reqs[1..], m);
    } else {
      assert Confirmed([m]) == Confirmed([m][1..]);
    }
  }

  /** On the seeded requests and no availability, the calendar shows the one
      accepted meeting, Project Review, from 15:00 to 16:00 on 2026-01-04. */
  lemma SeedCalendar()
    ensures CalendarEvents(SeedRequests, []) ==
              [CalendarEvent("Project Review", "2026-01-04" + "T" + "15:00" + ":00", "2026-01-04" + "T" + "16:00" + ":00")]
  {
    var review := SeedRequests[1];
    SeedConfirmed();
    assert review.time == "15:00" + SlotSeparator + "16:00";
    SlotHalves(review.date, "15:00", "16:00");
  }

  /** Of the seeded requests, only Project Review is accepted. */
  lemma SeedConfirmed()
    ensures Confirmed(SeedRequests) == [SeedRequests[1]]
  {
  }

  // ---------------------------------------------------------------------------
  // The page state

  /** The component's state: the availability list and the request list,
      replaced as a whole by each handler. */
  class Scheduler {
    var availability: seq<Availability>
    var requests: seq<MeetingRequest>

    /** No duplicate availability entry, and request ids are unique. */
    ghost predicate Valid()
      reads this
    {
      NoDuplicates(availability) && UniqueIds(requests)
    }

    constructor ()
      ensures Valid()
      ensures availability == [] && requests == SeedRequests
    {
      availability := [];
      requests := SeedRequests;
    }

    /** `toggleSlot(date, time)`. */
    method ToggleSlot(date: string, time: string)
      requires Valid()
      modifies this
      ensures Valid()
      ensures availability == Toggled(old(availability), date, time)
      ensures requests == old(requests)
    {
      ToggleKeepsNoDuplicates(availability, date, time);
      var e := Availability(date, time);
      if e in availability {
        availability := RemoveEntry(availability, e);
      } else {
        availability := availability + [e];
      }
    }

    /** A click on a calendar date toggles that date with the first catalogue slot. */
    method DateClick(dateStr: string)
      requires Valid()
      modifies this
      ensures Valid()
      ensures availability == Toggled(old(availability), dateStr, "09:00 - 10:00")
      ensures requests == old(requests)
    {
      var slot := TimeSlots[0];
      ToggleSlot(dateStr, slot);
    }

    /** The delete button of the `i`-th availability entry. */
    method DeleteSlot(i: int)
      requires Valid()
      modifies this
      ensures Valid()
      ensures availability == WithoutIndex(old(availability), i)
      ensures 0 <= i < |old(availability)| ==> |availability| == |old(availability)| - 1
      ensures requests == old(requests)
    {
      DeleteKeepsNoDuplicates(availability, i);
      availability := WithoutIndex(availability, i);
    }

    /** The Accept button of the pending request `id`. */
    method Accept(id: int)
      requires Valid() && OfferedForResponse(requests, id)
      modifies this
      ensures Valid()
      ensures requests == Respond(old(requests), id, Accepted)
      ensures forall k :: 0 <= k < |requests| && old(requests)[k].status != Pending ==>
                requests[k] == old(requests)[k]
      ensures availability == old(availability)
    {
      RespondKeepsDecided(requests, id, Accepted);
      requests := Respond(requests, id, Accepted);
    }

    /** The Decline button of the pending request `id`. */
    method Decline(id: int)
      requires Valid() && OfferedForResponse(requests, id)
      modifies this
      ensures Valid()
      ensures requests == Respond(old(requests), id, Declined)
      ensures forall k :: 0 <= k < |requests| && old(requests)[k].status != Pending ==>
                requests[k] == old(requests)[k]
      ensures CalendarEvents(requests, availability) == old(CalendarEvents(requests, availability))
      ensures availability == old(availability)
    {
      RespondKeepsDecided(requests, id, Declined);
      DeclineKeepsCalendar(requests, availability, id);
      requests := Respond(requests, id, Declined);
    }

    /** The event list handed to the calendar. */
    function Events(): (r: seq<CalendarEvent>)
      reads this
      ensures |r| == CountAccepted(requests) + |availability|
    {
      CalendarShape(requests, availability);
      CalendarEvents(requests, availability)
    }
  }
}
