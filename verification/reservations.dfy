/** The reservations screen: the status buttons each row offers (the status state machine),
    the single-field status write, the badge colour and the pending / upcoming-confirmed
    summaries. */
module Reservations {
  import opened Wrappers
  import opened Seqs
  import opened Store
  import opened Schema

  /** A `reservations` row.  The reservation date and time are kept as the strings the
      database returns; the creation timestamp only matters for ordering, so it is kept as a
      number (`None` for null); `status` is nullable in the table. */
  datatype Reservation = Reservation(
    id: Id,
    customerName: string,
    customerPhone: string,
    customerEmail: Option<string>,
    reservationDate: string,
    reservationTime: string,
    numberOfGuests: int,
    status: Option<ReservationStatus>,
    specialRequests: Option<string>,
    createdAt: Option<int>)

  /** The status changes the buttons of a row offer: Confirm / Cancel on a pending row, Mark
      Complete / Cancel on a confirmed one, Reopen on a cancelled or completed one, nothing on
      a row without a status. */
  function OfferedTargets(from: Option<ReservationStatus>): set<ReservationStatus> {
    match from
    case Some(Pending) => {Confirmed, Cancelled}
    case Some(Confirmed) => {Completed, Cancelled}
    case Some(Cancelled) => {Pending}
    case Some(Completed) => {Pending}
    case None => {}
  }

  /** `to` is offered from `from`. */
  predicate Offered(from: ReservationStatus, to: ReservationStatus) {
    to in OfferedTargets(Some(from))
  }

  /** The transition table, case by case, as the buttons lay it out. */
  lemma TransitionTable()
    ensures forall t :: Offered(Pending, t) <==> t == Confirmed || t == Cancelled
    ensures forall t :: Offered(Confirmed, t) <==> t == Completed || t == Cancelled
    ensures forall t :: Offered(Cancelled, t) <==> t == Pending
    ensures forall t :: Offered(Completed, t) <==> t == Pending
    ensures OfferedTargets(None) == {}
  {
  }

  /** No button ever offers the status a row already has. */
  lemma NoSelfTransition(s: ReservationStatus)
    ensures !Offered(s, s)
  {
  }

  /** `path` is a run of offered status changes, one button press after another. */
  predicate IsRun(path: seq<ReservationStatus>) {
    forall i :: 0 <= i < |path| - 1 ==> Offered(path[i], path[i + 1])
  }

  /** Completing a pending reservation takes two presses: it is not offered directly, and
      Confirm then Mark Complete does it. */
  lemma PendingToCompletedNeedsConfirm()
    ensures !Offered(Pending, Completed)
    ensures IsRun([Pending, Confirmed, Completed])
    ensures forall path :: |path| == 2 && IsRun(path) && path[0] == Pending ==> path[1] != Completed
  {
  }

  /** Every status can be reached from every other in at most three presses, so no state is a
      dead end: cancelled and completed rows can always be reopened. */
  lemma {:induction false} AllStatusesReachable(from: ReservationStatus, to: ReservationStatus)
    ensures exists path :: 1 <= |path| <= 4 && path[0] == from && path[|path| - 1] == to && IsRun(path)
  {
    var path :=
      if from == to then [from]
      else match (from, to)
        case (Pending, Completed) => [Pending, Confirmed, Completed]
        case (Cancelled, Confirmed) => [Cancelled, Pending, Confirmed]
        case (Completed, Confirmed) => [Completed, Pending, Confirmed]
        case (Cancelled, Completed) => [Cancelled, Pending, Confirmed, Completed]
        case (Completed, Cancelled) => [Completed, Pending, Cancelled]
        case (Confirmed, Pending) => [Confirmed, Cancelled, Pending]
        case _ => [from, to];
    assert path[0] == from && path[|path| - 1] == to && IsRun(path);
  }

  /** `updateStatusMutation`: `.update({ status }).eq('id', id)`. */
  function UpdateStatus(t: map<Id, Reservation>, id: Id, to: ReservationStatus, net: Outcome)
    : (w: Written<Reservation>)
    ensures w.table.Keys == t.Keys && w.outcome == net
    ensures forall k :: k in t && k != id ==> w.table[k] == t[k]
    ensures net.Fail? ==> w.table == t
    ensures id in t && net.Ok? ==> w.table[id].status == Some(to)
  {
    UpdateById(t, id, (r: Reservation) => r.(status := Some(to)), net)
  }

  /** The status write touches the status column only: every other field of the row keeps
      its value, whatever the outcome. */
  lemma UpdateStatusScoped(t: map<Id, Reservation>, id: Id, to: ReservationStatus, net: Outcome)
    requires id in t
    ensures var r, r' := t[id], UpdateStatus(t, id, to, net).table[id];
      && r'.id == r.id && r'.customerName == r.customerName && r'.customerPhone == r.customerPhone
      && r'.customerEmail == r.customerEmail && r'.reservationDate == r.reservationDate
      && r'.reservationTime == r.reservationTime && r'.numberOfGuests == r.numberOfGuests
      && r'.specialRequests == r.specialRequests && r'.createdAt == r.createdAt
      && r'.status == (if net.Ok? then Some(to) else r.status)
  {
  }

  /** `getStatusColor`, over any string: one colour per status name, gray for anything else. */
  function StatusColor(status: string): string {
    if status == "pending" then "bg-yellow-100 text-yellow-800"
    else if status == "confirmed" then "bg-green-100 text-green-800"
    else if status == "cancelled" then "bg-red-100 text-red-800"
    else if status == "completed" then "bg-blue-100 text-blue-800"
    else "bg-gray-100 text-gray-800"
  }

  const Gray := "bg-gray-100 text-gray-800"

  /** The colour tells the status apart: a string is gray exactly when it names no status,
      and two status names share a colour only when they are the same status. */
  lemma StatusColorDistinguishes()
    ensures forall s :: StatusColor(s) == Gray <==> s !in ReservationStatusConstants
    ensures forall a, b :: StatusColor(ReservationStatusName(a)) == StatusColor(ReservationStatusName(b)) ==> a == b
  {
    forall s ensures StatusColor(s) == Gray <==> s !in ReservationStatusConstants {
      if s in ReservationStatusConstants {
        assert s == "pending" || s == "confirmed" || s == "cancelled" || s == "completed";
      }
    }
  }

  /** `pendingReservations`. */
  function PendingList(rows: seq<Reservation>): (r: seq<Reservation>)
    ensures |r| <= |rows|
    ensures IsSubsequence(r, rows)
    ensures forall i :: 0 <= i < |r| ==> r[i].status == Some(Pending)
    ensures forall i :: 0 <= i < |rows| && rows[i].status == Some(Pending) ==> rows[i] in r
  {
    Filter(rows, (x: Reservation) => x.status == Some(Pending))
  }

  /** `upcomingReservations`: confirmed rows whose date is not before now.  Turning the date
      string into an instant (`new Date(...)`) is a parameter; a date that does not parse
      compares false, as an invalid `Date` does. */
  function UpcomingList(rows: seq<Reservation>, now: int, instant: string -> Option<int>)
    : (r: seq<Reservation>)
    ensures IsSubsequence(r, rows)
    ensures forall i :: 0 <= i < |r| ==>
              r[i].status == Some(Confirmed) && instant(r[i].reservationDate).Some?
              && instant(r[i].reservationDate).value >= now
    ensures forall i ::
              0 <= i < |rows| && rows[i].status == Some(Confirmed)
              && instant(rows[i].reservationDate).Some? && instant(rows[i].reservationDate).value >= now
              ==> rows[i] in r
  {
    Filter(rows, (x: Reservation) =>
      x.status == Some(Confirmed) && instant(x.reservationDate).Some?
      && instant(x.reservationDate).value >= now)
  }

  /** The upcoming list never holds more rows than there are confirmed rows, and the pending
      count never exceeds the total. */
  lemma SummaryBounds(rows: seq<Reservation>, now: int, instant: string -> Option<int>)
    ensures |UpcomingList(rows, now, instant)| <= Count(rows, (x: Reservation) => x.status == Some(Confirmed))
    ensures IsSubsequence(UpcomingList(rows, now, instant),
                          Filter(rows, (x: Reservation) => x.status == Some(Confirmed)))
    ensures |PendingList(rows)| <= |rows|
  {
    CountMonotone(rows,
      (x: Reservation) => x.status == Some(Confirmed) && instant(x.reservationDate).Some?
                          && instant(x.reservationDate).value >= now,
      (x: Reservation) => x.status == Some(Confirmed));
  }
}
