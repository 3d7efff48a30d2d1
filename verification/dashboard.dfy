/** The dashboard: four counts, the five most recent reservations, and their status
    badges. */
module Dashboard {
  import opened Wrappers
  import opened Seqs
  import opened Store
  import opened Schema
  import Reservations
  import Menu
  import Specials
  import Gallery

  /** `query.data?.length || 0`: the size of the matching rows, or 0 when the query comes
      back with an error (the error itself is ignored). */
  function StatCount<R>(rows: seq<R>, matches: R -> bool, answer: Outcome): (n: nat)
    ensures answer.Fail? ==> n == 0
    ensures answer.Ok? ==> n == |Filter(rows, matches)|
    ensures n <= |rows|
  {
    if answer.Ok? then Count(rows, matches) else 0
  }

  predicate ActiveMenuItem(x: Menu.MenuItem) { x.isActive == Some(true) }
  predicate PendingReservation(x: Reservations.Reservation) { x.status == Some(Pending) }
  predicate ActiveSpecial(x: Specials.Special) { x.isActive == Some(true) }
  predicate ActiveImage(x: Gallery.GalleryImage) { x.isActive == Some(true) }

  /** The four numbers on the stat cards. */
  datatype Stats = Stats(activeMenuItems: nat, pendingReservations: nat, activeSpecials: nat, galleryImages: nat)

  /** The four count queries, answered independently (`Promise.all`). */
  function LoadStats(menu: seq<Menu.MenuItem>, menuAnswer: Outcome,
                     reservations: seq<Reservations.Reservation>, reservationsAnswer: Outcome,
                     specials: seq<Specials.Special>, specialsAnswer: Outcome,
                     images: seq<Gallery.GalleryImage>, imagesAnswer: Outcome): (s: Stats)
    ensures s.activeMenuItems == StatCount(menu, ActiveMenuItem, menuAnswer)
    ensures s.pendingReservations == StatCount(reservations, PendingReservation, reservationsAnswer)
    ensures s.activeSpecials == StatCount(specials, ActiveSpecial, specialsAnswer)
    ensures s.galleryImages == StatCount(images, ActiveImage, imagesAnswer)
  {
    Stats(StatCount(menu, ActiveMenuItem, menuAnswer),
          StatCount(reservations, PendingReservation, reservationsAnswer),
          StatCount(specials, ActiveSpecial, specialsAnswer),
          StatCount(images, ActiveImage, imagesAnswer))
  }

  /** The dashboard's counts agree with the other screens: the pending count is the length
      of the reservations screen's pending list, and the active menu count is the number
      of items the menu screen does not mark hidden. */
  lemma {:induction false} CountsAgreeWithScreens(menu: seq<Menu.MenuItem>, reservations: seq<Reservations.Reservation>)
    ensures StatCount(reservations, PendingReservation, Ok) == |Reservations.PendingList(reservations)|
    ensures StatCount(menu, ActiveMenuItem, Ok) == Count(menu, (x: Menu.MenuItem) => !Menu.ShownHidden(x))
  {
    SameFilter(reservations, PendingReservation, (x: Reservations.Reservation) => x.status == Some(Pending));
    SameFilter(menu, ActiveMenuItem, (x: Menu.MenuItem) => !Menu.ShownHidden(x));
  }

  /** Two predicates that agree on every element filter alike. */
  lemma {:induction false} SameFilter<T>(s: seq<T>, p: T -> bool, q: T -> bool)
    requires forall i :: 0 <= i < |s| ==> p(s[i]) == q(s[i])
    ensures Filter(s, p) == Filter(s, q)
  {
    if |s| > 0 {
      assert forall i :: 1 <= i < |s| ==> s[i] == s[1..][i - 1];
      SameFilter(s[1..], p, q);
    }
  }

  /** A failed count and a true zero look the same. */
  lemma FailureReadsAsZero<R>(rows: seq<R>, matches: R -> bool)
    requires forall i :: 0 <= i < |rows| ==> !matches(rows[i])
    ensures StatCount(rows, matches, Fail) == StatCount(rows, matches, Ok) == 0
  {
  }

  /** `order('created_at', { ascending: false })`: a descending order in which a null
      timestamp sorts first, as PostgreSQL's `DESC` puts nulls first. */
  predicate NoEarlier(a: Option<int>, b: Option<int>) {
    a.None? || (b.Some? && a.value >= b.value)
  }

  /** The position of a row that no other row precedes in that order. */
  function LatestIndex(rows: seq<Reservations.Reservation>): (m: nat)
    requires |rows| > 0
    ensures m < |rows|
    ensures forall i :: 0 <= i < |rows| ==> NoEarlier(rows[m].createdAt, rows[i].createdAt)
  {
    if |rows| == 1 then 0
    else
      var m := LatestIndex(rows[1..]);
      assert forall i :: 1 <= i < |rows| ==> rows[i] == rows[1..][i - 1];
      if NoEarlier(rows[0].createdAt, rows[m + 1].createdAt) then 0 else m + 1
  }

  const RecentLimit := 5

  /** `rows` without its element at `m`. */
  function Without(rows: seq<Reservations.Reservation>, m: nat): (rest: seq<Reservations.Reservation>)
    requires m < |rows|
    ensures |rest| == |rows| - 1
    ensures multiset(rows) == multiset(rest) + multiset{rows[m]}
    ensures forall x :: x in rows && x != rows[m] ==> x in rest
  {
    var rest := rows[..m] + rows[m + 1..];
    assert rows == rows[..m] + [rows[m]] + rows[m + 1..];
    forall x | x in rows && x != rows[m] ensures x in rest {
      var j :| 0 <= j < |rows| && rows[j] == x;
      if j < m {
        assert rest[j] == x;
      } else {
        assert rest[j - 1] == x;
      }
    }
    rest
  }

  /** `.order('created_at', { ascending: false }).limit(k)`: repeatedly take a latest row. */
  function Latest(rows: seq<Reservations.Reservation>, k: nat): (r: seq<Reservations.Reservation>)
    ensures |r| == if k < |rows| then k else |rows|
    ensures multiset(r) <= multiset(rows)
    decreases k
  {
    if k == 0 || |rows| == 0 then []
    else
      var m := LatestIndex(rows);
      [rows[m]] + Latest(Without(rows, m), k - 1)
  }

  /** Newest first. */
  predicate Descending(r: seq<Reservations.Reservation>) {
    forall i, j :: 0 <= i < j < |r| ==> NoEarlier(r[i].createdAt, r[j].createdAt)
  }

  /** The list is in descending order. */
  lemma {:induction false} LatestDescending(rows: seq<Reservations.Reservation>, k: nat)
    ensures Descending(Latest(rows, k))
    decreases k
  {
    if k > 0 && |rows| > 0 {
      var m := LatestIndex(rows);
      var rest := Without(rows, m);
      var tail := Latest(rest, k - 1);
      assert Latest(rows, k) == [rows[m]] + tail;
      LatestDescending(rest, k - 1);
      LatestHeadFirst(rows, m, rest, tail);
      DescendingCons(rows[m], tail);
    }
  }

  /** The row taken first is no earlier than anything taken after it. */
  lemma LatestHeadFirst(rows: seq<Reservations.Reservation>, m: nat, rest: seq<Reservations.Reservation>,
                        tail: seq<Reservations.Reservation>)
    requires m < |rows| && forall i :: 0 <= i < |rows| ==> NoEarlier(rows[m].createdAt, rows[i].createdAt)
    requires multiset(rows) == multiset(rest) + multiset{rows[m]} && multiset(tail) <= multiset(rest)
    ensures forall j :: 0 <= j < |tail| ==> NoEarlier(rows[m].createdAt, tail[j].createdAt)
  {
    forall j | 0 <= j < |tail| ensures NoEarlier(rows[m].createdAt, tail[j].createdAt) {
      assert tail[j] in multiset(tail);
      assert tail[j] in multiset(rows);
      assert tail[j] in rows;
    }
  }

  /** A row no later row precedes, put in front of a descending list, keeps it descending. */
  lemma DescendingCons(h: Reservations.Reservation, tail: seq<Reservations.Reservation>)
    requires Descending(tail)
    requires forall j :: 0 <= j < |tail| ==> NoEarlier(h.createdAt, tail[j].createdAt)
    ensures Descending([h] + tail)
  {
    var r := [h] + tail;
    forall i, j | 0 <= i < j < |r| ensures NoEarlier(r[i].createdAt, r[j].createdAt) {
      assert r[j] == tail[j - 1];
      if i > 0 {
        assert r[i] == tail[i - 1];
      }
    }
  }

  /** Every row of `shown` is no earlier than `x`. */
  predicate Below(shown: seq<Reservations.Reservation>, x: Reservations.Reservation) {
    forall i :: 0 <= i < |shown| ==> NoEarlier(shown[i].createdAt, x.createdAt)
  }

  /** Every row left out is no later than every row shown. */
  predicate TopOf(shown: seq<Reservations.Reservation>, rows: seq<Reservations.Reservation>) {
    forall x :: x in rows && x !in shown ==> Below(shown, x)
  }

  /** No row left out is later than a row shown: the shown rows are the `k` latest. */
  lemma {:induction false} LatestAreLatest(rows: seq<Reservations.Reservation>, k: nat)
    ensures TopOf(Latest(rows, k), rows)
    decreases k
  {
    if k > 0 && |rows| > 0 {
      var m := LatestIndex(rows);
      var rest := Without(rows, m);
      var tail := Latest(rest, k - 1);
      LatestAreLatest(rest, k - 1);
      var shown := [rows[m]] + tail;
      assert Latest(rows, k) == shown;
      forall x | x in rows && x !in shown ensures Below(shown, x) {
        assert x != rows[m];
        assert x in rest && x !in tail;
        BelowCons(rows[m], tail, x);
      }
    }
  }

  /** A first row no earlier than `x` keeps `x` below the list. */
  lemma BelowCons(h: Reservations.Reservation, tail: seq<Reservations.Reservation>, x: Reservations.Reservation)
    requires NoEarlier(h.createdAt, x.createdAt) && Below(tail, x)
    ensures Below([h] + tail, x)
  {
    forall i | 0 <= i < |[h] + tail| ensures NoEarlier(([h] + tail)[i].createdAt, x.createdAt) {
      if i > 0 {
        assert ([h] + tail)[i] == tail[i - 1];
      }
    }
  }

  /** `recentReservations`: the five latest rows, or none when the query fails. */
  function RecentReservations(rows: seq<Reservations.Reservation>, answer: Outcome): (r: seq<Reservations.Reservation>)
    ensures answer.Fail? ==> r == []
    ensures answer.Ok? ==> r == Latest(rows, RecentLimit)
    ensures |r| <= RecentLimit && multiset(r) <= multiset(rows)
  {
    if answer.Ok? then Latest(rows, RecentLimit) else []
  }

  const Orange := "bg-orange-100 text-orange-800"
  const Green := "bg-green-100 text-green-800"
  const Red := "bg-red-100 text-red-800"

  /** The dashboard's status badge. */
  function BadgeColor(status: Option<ReservationStatus>): string {
    if status == Some(Pending) then Orange
    else if status == Some(Confirmed) then Green
    else Red
  }

  /** Pending and confirmed get their own colours; every other value, completed and a null
      status included, shows red, so the dashboard does not tell a completed reservation
      from a cancelled one while the reservations screen does. */
  lemma BadgeColors(status: Option<ReservationStatus>)
    ensures BadgeColor(status) == Orange <==> status == Some(Pending)
    ensures BadgeColor(status) == Green <==> status == Some(Confirmed)
    ensures BadgeColor(status) == Red <==> status != Some(Pending) && status != Some(Confirmed)
    ensures BadgeColor(Some(Completed)) == BadgeColor(Some(Cancelled))
    ensures Reservations.StatusColor(ReservationStatusName(Completed))
            != Reservations.StatusColor(ReservationStatusName(Cancelled))
  {
    Reservations.StatusColorDistinguishes();
  }
}
