/** The buffered conflict checker of src/lib/conflictChecker.ts: the new
    appointment's blocked interval ends its service's buffer after its end,
    every other appointment's blocked interval ends its own service's buffer
    after its end, appointments sharing the new one's id are skipped, and so
    are appointments whose service cannot be found. */
module BufferedChecker {
  import opened Types

  /** `allServices.find(s => s.id === serviceId)`: the first service in
      catalog order carrying that id, or None. */
  function FindService(allServices: seq<Service>, serviceId: string): (r: Option<Service>)
    ensures r.None? <==> forall i :: 0 <= i < |allServices| ==> allServices[i].id != serviceId
    ensures r.Some? ==> exists i :: 0 <= i < |allServices| && allServices[i] == r.value
                                    && forall j :: 0 <= j < i ==> allServices[j].id != serviceId
    ensures r.Some? ==> r.value.id == serviceId
  {
    if |allServices| == 0 then None
    else if allServices[0].id == serviceId then Some(allServices[0])
    else
      var rest := FindService(allServices[1..], serviceId);
      assert forall i :: 1 <= i < |allServices| ==> allServices[i] == allServices[1..][i - 1];
      rest
  }

  /** `areIntervalsOverlapping(a, b)` with its default, exclusive ends. For
      two non-empty spans it holds exactly when they share an instant, so
      spans that only touch do not overlap. */
  predicate IntervalsOverlapping(a: Interval, b: Interval)
    ensures a.start < a.end && b.start < b.end ==>
      (IntervalsOverlapping(a, b) <==> exists t :: Within(t, a) && Within(t, b))
  {
    var latestStart := if a.start < b.start then b.start else a.start;
    assert a.start < a.end && b.start < b.end && a.start < b.end && b.start < a.end ==>
      Within(latestStart, a) && Within(latestStart, b);
    a.start < b.end && b.start < a.end
  }

  /** The span an appointment blocks: from its start to its end pushed out by
      `bufferMinutes`. */
  function BlockedInterval(a: Appointment, bufferMinutes: int): (r: Interval)
    ensures r.start == a.startTime
    ensures bufferMinutes >= 0 ==> r.end >= a.endTime
  {
    Interval(a.startTime, AddMinutes(a.endTime, bufferMinutes))
  }

  /** The condition under which one existing appointment makes the new one
      conflict: the body of the loop. An appointment with the new one's id, or
      whose service is not in the catalog, never blocks. */
  predicate Blocks(newAppointment: Appointment, newServiceDetails: Service,
                   allServices: seq<Service>, existing: Appointment)
    ensures Blocks(newAppointment, newServiceDetails, allServices, existing) ==>
      existing.id != newAppointment.id &&
      exists i :: 0 <= i < |allServices| && allServices[i].id == existing.serviceId
  {
    existing.id != newAppointment.id &&
    match FindService(allServices, existing.serviceId)
    case None => false
    case Some(s) =>
      IntervalsOverlapping(BlockedInterval(newAppointment, newServiceDetails.bufferMinutes),
                           BlockedInterval(existing, s.bufferMinutes))
  }

  /** Specification of the checker: some existing appointment blocks the new one. */
  predicate HasConflict(newAppointment: Appointment, existingAppointments: seq<Appointment>,
                        newServiceDetails: Service, allServices: seq<Service>)
  {
    exists i :: 0 <= i < |existingAppointments| &&
      Blocks(newAppointment, newServiceDetails, allServices, existingAppointments[i])
  }

  /** `checkConflict(newAppointment, existingAppointments, newServiceDetails, allServices)`:
      the scan that stops at the first overlap. Its parameters are values, so
      nothing it is given can change. */
  method CheckConflict(newAppointment: Appointment, existingAppointments: seq<Appointment>,
                       newServiceDetails: Service, allServices: seq<Service>)
    returns (conflict: bool)
    ensures conflict <==> HasConflict(newAppointment, existingAppointments, newServiceDetails, allServices)
    ensures existingAppointments == [] ==> !conflict
  {
    var newStart := newAppointment.startTime;
    var newBlockedEnd := AddMinutes(newAppointment.endTime, newServiceDetails.bufferMinutes);
    var newInterval := Interval(newStart, newBlockedEnd);

    for i := 0 to |existingAppointments|
      invariant forall j :: 0 <= j < i ==>
        !Blocks(newAppointment, newServiceDetails, allServices, existingAppointments[j])
    {
      var existing := existingAppointments[i];
      if existing.id == newAppointment.id {
        continue;
      }
      var existingServiceDetails := FindService(allServices, existing.serviceId);
      if existingServiceDetails.None? {
        continue;
      }
      var existingStart := existing.startTime;
      var existingBlockedEnd := AddMinutes(existing.endTime, existingServiceDetails.value.bufferMinutes);
      var existingInterval := Interval(existingStart, existingBlockedEnd);
      if IntervalsOverlapping(newInterval, existingInterval) {
        return true;
      }
    }
    return false;
  }

  /** One existing appointment blocks the new one exactly when the raw times,
      each end pushed out by its own service's buffer, overlap. */
  lemma BlocksCharacterized(newAppointment: Appointment, newServiceDetails: Service,
                            allServices: seq<Service>, existing: Appointment)
    ensures Blocks(newAppointment, newServiceDetails, allServices, existing) <==>
      existing.id != newAppointment.id &&
      exists i :: 0 <= i < |allServices| && allServices[i].id == existing.serviceId &&
        (forall j :: 0 <= j < i ==> allServices[j].id != existing.serviceId) &&
        newAppointment.startTime < existing.endTime + allServices[i].bufferMinutes * MillisecondsPerMinute &&
        existing.startTime < newAppointment.endTime + newServiceDetails.bufferMinutes * MillisecondsPerMinute
  {
    var found := FindService(allServices, existing.serviceId);
    if found.Some? {
      var k :| 0 <= k < |allServices| && allServices[k] == found.value
               && forall j :: 0 <= j < k ==> allServices[j].id != existing.serviceId;
    }
  }

  /** When several services share an id, the first of them in the catalog
      decides the buffer, whatever follows it. */
  lemma FirstServiceWins(allServices: seq<Service>, k: nat)
    requires k < |allServices|
    requires forall j :: 0 <= j < k ==> allServices[j].id != allServices[k].id
    ensures FindService(allServices, allServices[k].id) == Some(allServices[k])
  {
  }

  /** Putting into the list, at any position, an appointment that does not
      block the new one leaves the verdict as it was. */
  lemma InsertNonBlocking(newAppointment: Appointment, existingAppointments: seq<Appointment>,
                          newServiceDetails: Service, allServices: seq<Service>,
                          k: nat, extra: Appointment)
    requires k <= |existingAppointments|
    requires !Blocks(newAppointment, newServiceDetails, allServices, extra)
    ensures
      var longer := existingAppointments[..k] + [extra] + existingAppointments[k..];
      HasConflict(newAppointment, longer, newServiceDetails, allServices) ==
      HasConflict(newAppointment, existingAppointments, newServiceDetails, allServices)
  {
    var longer := existingAppointments[..k] + [extra] + existingAppointments[k..];
    assert |longer| == |existingAppointments| + 1;
    assert forall i :: 0 <= i < k ==> longer[i] == existingAppointments[i];
    assert forall i :: k < i < |longer| ==> longer[i] == existingAppointments[i - 1];
    assert longer[k] == extra;
    if HasConflict(newAppointment, longer, newServiceDetails, allServices) {
      var i :| 0 <= i < |longer| && Blocks(newAppointment, newServiceDetails, allServices, longer[i]);
      assert i != k;
      var j := if i < k then i else i - 1;
      assert longer[i] == existingAppointments[j];
    }
    if HasConflict(newAppointment, existingAppointments, newServiceDetails, allServices) {
      var j :| 0 <= j < |existingAppointments| &&
               Blocks(newAppointment, newServiceDetails, allServices, existingAppointments[j]);
      var i := if j < k then j else j + 1;
      assert longer[i] == existingAppointments[j];
    }
  }

  /** Self-exclusion on edit: an existing appointment with the new one's id
      never causes a conflict, whatever its times, and adding it anywhere to the
      list changes nothing. */
  lemma SameIdNeverConflicts(newAppointment: Appointment, existingAppointments: seq<Appointment>,
                             newServiceDetails: Service, allServices: seq<Service>,
                             k: nat, self: Appointment)
    requires k <= |existingAppointments|
    requires self.id == newAppointment.id
    ensures !HasConflict(newAppointment, [self], newServiceDetails, allServices)
    ensures
      var longer := existingAppointments[..k] + [self] + existingAppointments[k..];
      HasConflict(newAppointment, longer, newServiceDetails, allServices) ==
      HasConflict(newAppointment, existingAppointments, newServiceDetails, allServices)
  {
    InsertNonBlocking(newAppointment, existingAppointments, newServiceDetails, allServices, k, self);
  }

  /** An existing appointment whose service is not in the catalog is skipped:
      it never causes a conflict, even when its raw times overlap the new
      appointment's, so it is not treated as having buffer 0. */
  lemma MissingServiceSkipped(newAppointment: Appointment, existingAppointments: seq<Appointment>,
                              newServiceDetails: Service, allServices: seq<Service>,
                              k: nat, orphan: Appointment)
    requires k <= |existingAppointments|
    requires forall i :: 0 <= i < |allServices| ==> allServices[i].id != orphan.serviceId
    ensures !HasConflict(newAppointment, [orphan], newServiceDetails, allServices)
    ensures
      var longer := existingAppointments[..k] + [orphan] + existingAppointments[k..];
      HasConflict(newAppointment, longer, newServiceDetails, allServices) ==
      HasConflict(newAppointment, existingAppointments, newServiceDetails, allServices)
  {
    InsertNonBlocking(newAppointment, existingAppointments, newServiceDetails, allServices, k, orphan);
  }

  /** Skipping is not the same as buffer 0: an orphan whose raw times overlap
      the new booking's blocked interval is no conflict, yet the same
      appointment conflicts once a buffer-0 service with its service id is
      appended to the catalog. */
  lemma MissingServiceIsNotBufferZero(newAppointment: Appointment, newServiceDetails: Service,
                                      allServices: seq<Service>, orphan: Appointment, zero: Service)
    requires orphan.id != newAppointment.id
    requires forall i :: 0 <= i < |allServices| ==> allServices[i].id != orphan.serviceId
    requires zero.id == orphan.serviceId && zero.bufferMinutes == 0
    requires newAppointment.startTime < orphan.endTime
    requires orphan.startTime < AddMinutes(newAppointment.endTime, newServiceDetails.bufferMinutes)
    ensures !HasConflict(newAppointment, [orphan], newServiceDetails, allServices)
    ensures HasConflict(newAppointment, [orphan], newServiceDetails, allServices + [zero])
  {
    MissingServiceSkipped(newAppointment, [], newServiceDetails, allServices, 0, orphan);
    var extended := allServices + [zero];
    var found := FindService(extended, orphan.serviceId);
    assert extended[|allServices|].id == orphan.serviceId;
    var k :| 0 <= k < |extended| && extended[k] == found.value
             && forall j :: 0 <= j < k ==> extended[j].id != orphan.serviceId;
    if k < |allServices| {
      assert extended[k] == allServices[k];
    }
    assert found == Some(zero);
    assert Blocks(newAppointment, newServiceDetails, extended, [orphan][0]);
  }

  /** Back-to-back bookings are legal: a new appointment starting exactly when
      an existing one's blocked interval ends, or whose blocked interval ends
      exactly when an existing one starts, does not conflict with it. */
  lemma BackToBackAllowed(newAppointment: Appointment, newServiceDetails: Service,
                          allServices: seq<Service>, existing: Appointment, s: Service)
    requires FindService(allServices, existing.serviceId) == Some(s)
    requires newAppointment.startTime == BlockedInterval(existing, s.bufferMinutes).end ||
             BlockedInterval(newAppointment, newServiceDetails.bufferMinutes).end == existing.startTime
    ensures !HasConflict(newAppointment, [existing], newServiceDetails, allServices)
  {
    assert !Blocks(newAppointment, newServiceDetails, allServices, [existing][0]);
  }

  /** Buffers extend only the ends: with both services found and distinct ids,
      the pair conflicts exactly when each start lies before the other's
      buffered end. */
  lemma BufferedEndsDecide(newAppointment: Appointment, newServiceDetails: Service,
                           allServices: seq<Service>, existing: Appointment, s: Service)
    requires existing.id != newAppointment.id
    requires FindService(allServices, existing.serviceId) == Some(s)
    ensures HasConflict(newAppointment, [existing], newServiceDetails, allServices) <==>
      newAppointment.startTime < AddMinutes(existing.endTime, s.bufferMinutes) &&
      existing.startTime < AddMinutes(newAppointment.endTime, newServiceDetails.bufferMinutes)
  {
    assert [existing][0] == existing;
  }

  /** An existing appointment 10:00-11:00 whose service has a 15-minute buffer
      blocks until 11:15, so a new 11:10-11:30 booking conflicts with it. */
  lemma BufferExample()
    ensures
      var hair := Service("hair", "Haircut", 60, 15, 40);
      var existing := Appointment("a", "hair", "Ann", Clock(10, 0), Clock(11, 0), None);
      var newAppointment := Appointment("b", "hair", "Bob", Clock(11, 10), Clock(11, 30), None);
      HasConflict(newAppointment, [existing], hair, [hair])
  {
    var hair := Service("hair", "Haircut", 60, 15, 40);
    var existing := Appointment("a", "hair", "Ann", Clock(10, 0), Clock(11, 0), None);
    var newAppointment := Appointment("b", "hair", "Bob", Clock(11, 10), Clock(11, 30), None);
    assert "a" != "b" by { assert "a"[0] != "b"[0]; }
    assert Blocks(newAppointment, hair, [hair], [existing][0]);
  }

  /** Catalog S1 with buffer 10; existing 09:00-10:00; a new 10:05-10:30
      booking of S1 starts before 10:10 and so conflicts. */
  lemma CatalogScenario()
    ensures
      var s1 := Service("S1", "Massage", 60, 10, 50);
      var a := Appointment("a", "S1", "Ann", Clock(9, 0), Clock(10, 0), None);
      var candidate := Appointment("c", "S1", "Cat", Clock(10, 5), Clock(10, 30), None);
      HasConflict(candidate, [a], s1, [s1])
  {
    var s1 := Service("S1", "Massage", 60, 10, 50);
    var a := Appointment("a", "S1", "Ann", Clock(9, 0), Clock(10, 0), None);
    var candidate := Appointment("c", "S1", "Cat", Clock(10, 5), Clock(10, 30), None);
    assert "a" != "c" by { assert "a"[0] != "c"[0]; }
    assert Blocks(candidate, s1, [s1], [a][0]);
  }

  /** A wall-clock time of some fixed day, in milliseconds. */
  function Clock(hours: int, minutes: int): int
  {
    AddMinutes(0, hours * 60 + minutes)
  }

  /** The verdict does not depend on the order of the existing appointments:
      any rearrangement of the list gives the same answer. */
  lemma OrderIrrelevant(newAppointment: Appointment, existingAppointments: seq<Appointment>,
                        reordered: seq<Appointment>,
                        newServiceDetails: Service, allServices: seq<Service>)
    requires multiset(reordered) == multiset(existingAppointments)
    ensures HasConflict(newAppointment, reordered, newServiceDetails, allServices) ==
            HasConflict(newAppointment, existingAppointments, newServiceDetails, allServices)
  {
    if HasConflict(newAppointment, existingAppointments, newServiceDetails, allServices) {
      var i :| 0 <= i < |existingAppointments| &&
               Blocks(newAppointment, newServiceDetails, allServices, existingAppointments[i]);
      var e := existingAppointments[i];
      assert e in multiset(existingAppointments);
      assert e in reordered;
      var j :| 0 <= j < |reordered| && reordered[j] == e;
    }
    if HasConflict(newAppointment, reordered, newServiceDetails, allServices) {
      var i :| 0 <= i < |reordered| &&
               Blocks(newAppointment, newServiceDetails, allServices, reordered[i]);
      var e := reordered[i];
      assert e in multiset(reordered);
      assert e in existingAppointments;
      var j :| 0 <= j < |existingAppointments| && existingAppointments[j] == e;
    }
  }

  /** Between two appointments whose services are both found, conflict is symmetric: each blocks the other or neither does. */
  lemma BlocksSymmetric(a: Appointment, sa: Service, b: Appointment, sb: Service,
                        allServices: seq<Service>)
    requires FindService(allServices, a.serviceId) == Some(sa)
    requires FindService(allServices, b.serviceId) == Some(sb)
    ensures HasConflict(a, [b], sa, allServices) <==> HasConflict(b, [a], sb, allServices)
  {
    assert [a][0] == a && [b][0] == b;
  }
}
