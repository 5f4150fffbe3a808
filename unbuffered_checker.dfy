/** The unbuffered conflict checker of src/lib/utils/conflictChecker.ts: it
    compares the raw stored start and end times, with no service buffer, after
    rejecting an empty or inverted new interval, and it skips the appointment
    being edited when its id is passed as `excludeId`. The appointment store it
    reads is the `existingAppointments` parameter here. */
module UnbufferedChecker {
  import opened Types

  /** `excludeId && existingAppt.id === excludeId`: only a present, non-empty
      `excludeId` excludes anything. */
  predicate Excluded(excludeId: Option<string>, existingAppt: Appointment)
    ensures excludeId == None || excludeId == Some("") ==> !Excluded(excludeId, existingAppt)
    ensures Excluded(excludeId, existingAppt) ==> excludeId == Some(existingAppt.id)
  {
    excludeId.Some? && excludeId.value != "" && existingAppt.id == excludeId.value
  }

  /** The callback handed to `some`: not excluded, and the raw times overlap.
      For non-empty intervals, overlapping means sharing an instant. */
  predicate Conflicting(newStart: int, newEnd: int, excludeId: Option<string>, existingAppt: Appointment)
    ensures Conflicting(newStart, newEnd, excludeId, existingAppt) ==> !Excluded(excludeId, existingAppt)
    ensures newStart < newEnd && existingAppt.startTime < existingAppt.endTime ==>
      (Conflicting(newStart, newEnd, excludeId, existingAppt) <==>
       !Excluded(excludeId, existingAppt) &&
       exists t :: Within(t, Interval(newStart, newEnd)) &&
                   Within(t, Interval(existingAppt.startTime, existingAppt.endTime)))
  {
    var latestStart := if newStart < existingAppt.startTime then existingAppt.startTime else newStart;
    assert newStart < newEnd && existingAppt.startTime < existingAppt.endTime &&
           newStart < existingAppt.endTime && newEnd > existingAppt.startTime ==>
      Within(latestStart, Interval(newStart, newEnd)) &&
      Within(latestStart, Interval(existingAppt.startTime, existingAppt.endTime));
    !Excluded(excludeId, existingAppt) &&
    newStart < existingAppt.endTime && newEnd > existingAppt.startTime
  }

  /** `existingAppointments.some(existingAppt => …)`, element by element. */
  function AnyConflicting(existingAppointments: seq<Appointment>, newStart: int, newEnd: int,
                          excludeId: Option<string>): (r: bool)
    ensures r <==> exists i :: 0 <= i < |existingAppointments| &&
                     Conflicting(newStart, newEnd, excludeId, existingAppointments[i])
  {
    if |existingAppointments| == 0 then false
    else if Conflicting(newStart, newEnd, excludeId, existingAppointments[0]) then true
    else
      var rest := AnyConflicting(existingAppointments[1..], newStart, newEnd, excludeId);
      assert forall i :: 1 <= i < |existingAppointments| ==>
        existingAppointments[i] == existingAppointments[1..][i - 1];
      rest
  }

  /** `checkConflict(newStartTime, newEndTime, excludeId)` over the snapshot
      `existingAppointments` of the appointment store. */
  function CheckConflict(existingAppointments: seq<Appointment>, newStart: int, newEnd: int,
                         excludeId: Option<string>): (r: bool)
    ensures newStart >= newEnd ==> !r
    ensures existingAppointments == [] ==> !r
    ensures newStart < newEnd ==>
      (r <==> exists i :: 0 <= i < |existingAppointments| &&
                !Excluded(excludeId, existingAppointments[i]) &&
                newStart < existingAppointments[i].endTime &&
                newEnd > existingAppointments[i].startTime)
  {
    if newStart >= newEnd then false
    else AnyConflicting(existingAppointments, newStart, newEnd, excludeId)
  }

  /** The appointment named by a non-empty `excludeId` never conflicts, and
      adding it anywhere to the snapshot changes nothing. */
  lemma ExcludedNeverConflicts(existingAppointments: seq<Appointment>, newStart: int, newEnd: int,
                               excludeId: string, k: nat, edited: Appointment)
    requires k <= |existingAppointments|
    requires excludeId != "" && edited.id == excludeId
    ensures !CheckConflict([edited], newStart, newEnd, Some(excludeId))
    ensures
      var longer := existingAppointments[..k] + [edited] + existingAppointments[k..];
      CheckConflict(longer, newStart, newEnd, Some(excludeId)) ==
      CheckConflict(existingAppointments, newStart, newEnd, Some(excludeId))
  {
    var longer := existingAppointments[..k] + [edited] + existingAppointments[k..];
    var x := Some(excludeId);
    assert !Conflicting(newStart, newEnd, x, [edited][0]);
    assert |longer| == |existingAppointments| + 1;
    assert forall i :: 0 <= i < k ==> longer[i] == existingAppointments[i];
    assert forall i :: k < i < |longer| ==> longer[i] == existingAppointments[i - 1];
    assert longer[k] == edited;
    if CheckConflict(longer, newStart, newEnd, x) {
      var i :| 0 <= i < |longer| && Conflicting(newStart, newEnd, x, longer[i]);
      assert i != k;
      var j := if i < k then i else i - 1;
      assert longer[i] == existingAppointments[j];
    }
    if CheckConflict(existingAppointments, newStart, newEnd, x) {
      var j :| 0 <= j < |existingAppointments| && Conflicting(newStart, newEnd, x, existingAppointments[j]);
      var i := if j < k then j else j + 1;
      assert longer[i] == existingAppointments[j];
    }
  }

  /** An absent `excludeId` and an empty one both exclude nothing: every
      appointment, whatever its id, takes part in the check. */
  lemma EmptyExcludeIdExcludesNothing(existingAppointments: seq<Appointment>, newStart: int, newEnd: int)
    ensures CheckConflict(existingAppointments, newStart, newEnd, Some("")) ==
            CheckConflict(existingAppointments, newStart, newEnd, None)
    ensures newStart < newEnd ==>
      (CheckConflict(existingAppointments, newStart, newEnd, None) <==>
       exists i :: 0 <= i < |existingAppointments| &&
         newStart < existingAppointments[i].endTime && newEnd > existingAppointments[i].startTime)
  {
  }

  /** Touching intervals do not conflict: a new interval ending exactly when the
      stored appointment starts, or starting exactly when it ends, leaves it
      out of the verdict. */
  lemma AdjacentDoesNotConflict(newStart: int, newEnd: int, excludeId: Option<string>,
                                existingAppt: Appointment)
    requires newEnd == existingAppt.startTime || newStart == existingAppt.endTime
    ensures !CheckConflict([existingAppt], newStart, newEnd, excludeId)
  {
    assert [existingAppt][0] == existingAppt;
  }

  /** Overlap is symmetric: for two valid intervals A and B, checking A against
      a store holding only B agrees with checking B against a store holding
      only A. */
  lemma OverlapSymmetric(a: Appointment, b: Appointment)
    requires a.startTime < a.endTime && b.startTime < b.endTime
    ensures CheckConflict([b], a.startTime, a.endTime, None) ==
            CheckConflict([a], b.startTime, b.endTime, None)
  {
    assert [a][0] == a && [b][0] == b;
  }

  /** No buffer is applied: the verdict depends only on the stored ids and raw
      times, so two snapshots that agree on those give the same answer,
      whatever their services. */
  lemma OnlyRawTimesMatter(xs: seq<Appointment>, ys: seq<Appointment>,
                             newStart: int, newEnd: int, excludeId: Option<string>)
    requires |xs| == |ys|
    requires forall i :: 0 <= i < |xs| ==>
      xs[i].id == ys[i].id && xs[i].startTime == ys[i].startTime && xs[i].endTime == ys[i].endTime
    ensures CheckConflict(xs, newStart, newEnd, excludeId) == CheckConflict(ys, newStart, newEnd, excludeId)
  {
    if newStart < newEnd {
      if CheckConflict(xs, newStart, newEnd, excludeId) {
        var i :| 0 <= i < |xs| && Conflicting(newStart, newEnd, excludeId, xs[i]);
        assert Conflicting(newStart, newEnd, excludeId, ys[i]);
      }
      if CheckConflict(ys, newStart, newEnd, excludeId) {
        var i :| 0 <= i < |ys| && Conflicting(newStart, newEnd, excludeId, ys[i]);
        assert Conflicting(newStart, newEnd, excludeId, xs[i]);
      }
    }
  }
}
