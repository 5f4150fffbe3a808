/** How the two checkers relate. They agree when no buffer is in play, every
    existing appointment's service is in the catalog, the new interval is
    non-empty and the unbuffered checker excludes the new appointment's own,
    non-empty id. Outside those conditions they can disagree. */
module Bridge {
  import opened Types
  import BufferedChecker
  import UnbufferedChecker

  lemma CheckersAgree(newAppointment: Appointment, existingAppointments: seq<Appointment>,
                      newServiceDetails: Service, allServices: seq<Service>)
    requires newServiceDetails.bufferMinutes == 0
    requires forall j :: 0 <= j < |allServices| ==> allServices[j].bufferMinutes == 0
    requires forall i :: 0 <= i < |existingAppointments| ==>
      exists j :: 0 <= j < |allServices| && allServices[j].id == existingAppointments[i].serviceId
    requires newAppointment.startTime < newAppointment.endTime
    requires newAppointment.id != ""
    ensures BufferedChecker.HasConflict(newAppointment, existingAppointments, newServiceDetails, allServices) ==
            UnbufferedChecker.CheckConflict(existingAppointments, newAppointment.startTime,
                                            newAppointment.endTime, Some(newAppointment.id))
  {
  }

  /** Without the degenerate-input guard, the buffered checker can report a
      conflict for an empty new interval that the unbuffered checker waves
      through: a zero-length booking at 10:00 with a 15-minute buffer blocks
      10:00-10:15 and meets an existing 10:05-10:30 booking. */
  lemma DisagreeOnEmptyInterval()
    ensures
      var cut := Service("cut", "Haircut", 0, 15, 20);
      var existing := Appointment("a", "cut", "Ann", BufferedChecker.Clock(10, 5),
                                  BufferedChecker.Clock(10, 30), None);
      var newAppointment := Appointment("b", "cut", "Bob", BufferedChecker.Clock(10, 0),
                                        BufferedChecker.Clock(10, 0), None);
      BufferedChecker.HasConflict(newAppointment, [existing], cut, [cut]) &&
      !UnbufferedChecker.CheckConflict([existing], newAppointment.startTime, newAppointment.endTime,
                                       Some(newAppointment.id))
  {
    var cut := Service("cut", "Haircut", 0, 15, 20);
    var existing := Appointment("a", "cut", "Ann", BufferedChecker.Clock(10, 5),
                                BufferedChecker.Clock(10, 30), None);
    var newAppointment := Appointment("b", "cut", "Bob", BufferedChecker.Clock(10, 0),
                                      BufferedChecker.Clock(10, 0), None);
    assert "a" != "b" by { assert "a"[0] != "b"[0]; }
    assert BufferedChecker.Blocks(newAppointment, cut, [cut], [existing][0]);
  }
}
