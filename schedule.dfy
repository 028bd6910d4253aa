/** The `websites` table and the due-set selection at the top of
    `checkWebsiteChanges` (src/services/websiteMonitor.js). Times are whole
    seconds. */
module Schedule {
  import opened Wrappers
  import opened Fetcher

  const SECONDS_PER_HOUR: int := 3600

  /** One row of the `websites` table (src/services/database.js). */
  datatype Website = Website(
    id: int,
    url: string,
    lastHash: Option<Digest>,
    lastChecked: int,
    checkFrequency: int)

  /** The `WHERE` clause of the selection: the row's next-check deadline,
      `last_checked` plus `check_frequency` hours, has passed. The deadline is
      built as the modifier `'+' || check_frequency || ' hours'`; for a
      negative interval that reads `+-2 hours`, which SQLite rejects, so the
      deadline is `NULL`, the comparison is `NULL` and the row is never
      selected. */
  predicate IsDue(w: Website, now: int): (due: bool)
    ensures due ==> 0 <= w.checkFrequency && w.lastChecked <= now
    ensures w.checkFrequency < 0 ==> !due
  {
    0 <= w.checkFrequency && now >= w.lastChecked + w.checkFrequency * SECONDS_PER_HOUR
  }

  /** The ids of a sequence of rows. */
  function Ids(ws: seq<Website>): set<int>
  {
    set w | w in ws :: w.id
  }

  /** No two rows share an id (the `INTEGER PRIMARY KEY`). */
  predicate UniqueIds(ws: seq<Website>)
  {
    forall i, j :: 0 <= i < |ws| && 0 <= j < |ws| && ws[i].id == ws[j].id ==> i == j
  }

  /** `SELECT * FROM websites WHERE <due>`: the due rows, each as often as it
      is in the table and no other row, in table order. */
  function DueWebsites(ws: seq<Website>, now: int): (due: seq<Website>)
    ensures forall w :: multiset(due)[w] == if IsDue(w, now) then multiset(ws)[w] else 0
    ensures forall w :: w in due <==> w in ws && IsDue(w, now)
  {
    if ws == [] then []
    else
      assert ws == [ws[0]] + ws[1..];
      (if IsDue(ws[0], now) then [ws[0]] else []) + DueWebsites(ws[1..], now)
  }

  /** The rows after the first of a table with unique ids have unique ids,
      none of them the first row's. */
  lemma UniqueTail(ws: seq<Website>)
    requires UniqueIds(ws) && ws != []
    ensures UniqueIds(ws[1..]) && ws[0].id !in Ids(ws[1..])
  {
    forall i, j | 0 <= i < |ws| - 1 && 0 <= j < |ws| - 1 && ws[1..][i].id == ws[1..][j].id ensures i == j {
      assert ws[i + 1].id == ws[j + 1].id;
    }
    forall i | 0 <= i < |ws| - 1 ensures ws[1..][i].id != ws[0].id {
      assert ws[i + 1].id != ws[0].id;
    }
  }

  /** Putting a row with a new id in front keeps ids unique. */
  lemma UniqueCons(w: Website, ws: seq<Website>)
    requires UniqueIds(ws) && w.id !in Ids(ws)
    ensures UniqueIds([w] + ws)
  {
    var vs := [w] + ws;
    forall k | 0 <= k < |ws| ensures ws[k].id != w.id {
      assert ws[k] in ws;
    }
    forall i, j | 0 <= i < |vs| && 0 <= j < |vs| && vs[i].id == vs[j].id ensures i == j {
      if i > 0 && j > 0 {
        assert ws[i - 1].id == ws[j - 1].id;
      }
    }
  }

  /** Each row is selected at most once: the due rows of a table with unique
      ids have unique ids. */
  lemma {:induction false} DueWebsitesOnce(ws: seq<Website>, now: int)
    requires UniqueIds(ws)
    ensures UniqueIds(DueWebsites(ws, now))
  {
    if ws != [] {
      var rest := DueWebsites(ws[1..], now);
      UniqueTail(ws);
      DueWebsitesOnce(ws[1..], now);
      if IsDue(ws[0], now) {
        assert Ids(rest) <= Ids(ws[1..]);
        UniqueCons(ws[0], rest);
      }
    }
  }

  /** A row stored with a negative interval is never selected, at any time. */
  lemma NegativeIntervalNeverSelected(ws: seq<Website>, now: int)
    ensures forall w :: w in ws && w.checkFrequency < 0 ==> w !in DueWebsites(ws, now)
  {
  }

  /** A row checked once an hour is due 61 minutes after its last check and not
      59 minutes after it. */
  lemma HourlyDeadline(w: Website, now: int)
    requires w.checkFrequency == 1
    ensures now == w.lastChecked + 61 * 60 ==> IsDue(w, now)
    ensures now == w.lastChecked + 59 * 60 ==> !IsDue(w, now)
  {
  }
}
