/** The change evaluator of `checkWebsiteChanges` and the registration of
    `addWebsiteToMonitor` (src/services/websiteMonitor.js), as functions on the
    monitor's state. The class in monitor.dfy performs the same writes in
    place and is proved to reach the states these functions describe. */
module Evaluator {
  import opened Wrappers
  import opened Fetcher
  import opened Schedule
  import opened Notifier

  /** One row of the append-only `changes` table (src/services/database.js). */
  datatype Change = Change(id: int, websiteId: int, oldHash: Option<Digest>, newHash: Digest, detectedAt: int)

  /** The three ways the check of one site ends. */
  datatype Outcome = Changed(digest: Digest) | Unchanged | Failed(error: FetchError)

  /** The two tables and the notices sent so far. */
  datatype State = State(websites: seq<Website>, changes: seq<Change>, notices: seq<Notice>)

  /** What the monitor keeps true of its state: row ids are unique, positive
      and below the next id to assign, every row has a baseline digest and was last
      checked no later than the clock, and change rows are numbered 1, 2, ...
      in insertion order, refer to existing sites and were detected no later
      than the clock. */
  ghost predicate Consistent(s: State, clock: int, nextId: int)
  {
    1 <= nextId && UniqueIds(s.websites) &&
    (forall w :: w in s.websites ==> 1 <= w.id < nextId && w.lastHash.Some? && w.lastChecked <= clock) &&
    (forall k :: 0 <= k < |s.changes| ==>
       s.changes[k].id == k + 1 && s.changes[k].websiteId in Ids(s.websites) && s.changes[k].detectedAt <= clock)
  }

  /** A consistent state stays consistent as the clock moves on. */
  lemma ConsistentLater(s: State, clock: int, later: int, nextId: int)
    requires Consistent(s, clock, nextId) && clock <= later
    ensures Consistent(s, later, nextId)
  {
  }

  /** The comparison `currentHash !== website.last_hash` against the row as it
      was read, or the failure thrown by the fetch. */
  function Classify(w: Website, r: Result<Digest, FetchError>): (o: Outcome)
    ensures o.Failed? <==> r.Failure?
    ensures o.Failed? ==> o.error == r.error
    ensures o.Changed? <==> r.Success? && w.lastHash != Some(r.value)
    ensures o.Changed? ==> o.digest == r.value
    ensures o.Unchanged? <==> r.Success? && w.lastHash == Some(r.value)
  {
    match r
    case Failure(e) => Failed(e)
    case Success(d) => if Some(d) != w.lastHash then Changed(d) else Unchanged
  }

  /** The outcome of checking row `w` when the network answers as `net`. */
  function Evaluate(hash: Body -> Digest, net: Network, w: Website): Outcome
  {
    Classify(w, FetchAndHash(hash, net, 0).result)
  }

  /** `UPDATE websites SET last_hash = d, last_checked = now WHERE id = id`. */
  function RecordChange(ws: seq<Website>, id: int, d: Digest, now: int): (r: seq<Website>)
    ensures |r| == |ws|
    ensures forall i :: 0 <= i < |r| ==>
      r[i].id == ws[i].id && r[i].url == ws[i].url && r[i].checkFrequency == ws[i].checkFrequency
    ensures forall i :: 0 <= i < |r| && ws[i].id == id ==> r[i].lastHash == Some(d) && r[i].lastChecked == now
    ensures forall i :: 0 <= i < |r| && ws[i].id != id ==> r[i] == ws[i]
  {
    seq(|ws|, i requires 0 <= i < |ws| =>
      if ws[i].id == id then ws[i].(lastHash := Some(d), lastChecked := now) else ws[i])
  }

  /** `UPDATE websites SET last_checked = now WHERE id = id`. */
  function RecordCheck(ws: seq<Website>, id: int, now: int): (r: seq<Website>)
    ensures |r| == |ws|
    ensures forall i :: 0 <= i < |r| ==>
      r[i].id == ws[i].id && r[i].url == ws[i].url && r[i].lastHash == ws[i].lastHash &&
      r[i].checkFrequency == ws[i].checkFrequency
    ensures forall i :: 0 <= i < |r| && ws[i].id == id ==> r[i].lastChecked == now
    ensures forall i :: 0 <= i < |r| && ws[i].id != id ==> r[i] == ws[i]
  {
    seq(|ws|, i requires 0 <= i < |ws| =>
      if ws[i].id == id then ws[i].(lastChecked := now) else ws[i])
  }

  /** A row after a check that ended with `o`. */
  function AfterCheck(w: Website, o: Outcome, now: int): Website
  {
    match o
    case Changed(d) => w.(lastHash := Some(d), lastChecked := now)
    case Unchanged => w.(lastChecked := now)
    case Failed(_) => w
  }

  /** Row `w` after its own check at `now`. */
  function Checked(w: Website, now: int, hash: Body -> Digest, net: int -> Network): Website
  {
    AfterCheck(w, Evaluate(hash, net(w.id), w), now)
  }

  /** The message sent for an outcome that is reported. */
  function Alert(o: Outcome): Message
    requires !o.Unchanged?
  {
    if o.Changed? then ContentChanged else CheckError(o.error)
  }

  /** The body of the `for` loop of `checkWebsiteChanges` for row `w` as read,
      once its check ended with `o`: on a change, insert a change row with the
      digest read and the new one, then update the row's digest and check
      time, then send the change notice; when unchanged, update the check time
      only; on a failure, write nothing and send the error notice. */
  function Step(s: State, w: Website, o: Outcome, now: int, config: EmailConfig, mailOk: bool): (r: State)
    ensures |r.websites| == |s.websites|
    ensures |r.changes| == |s.changes| + (if o.Changed? then 1 else 0)
    ensures |r.notices| == |s.notices| + (if o.Unchanged? then 0 else 1)
  {
    match o
    case Changed(d) =>
      State(RecordChange(s.websites, w.id, d, now),
            s.changes + [Change(|s.changes| + 1, w.id, w.lastHash, d, now)],
            s.notices + [Dispatch(config, mailOk, w.url, ContentChanged)])
    case Unchanged =>
      s.(websites := RecordCheck(s.websites, w.id, now))
    case Failed(e) =>
      s.(notices := s.notices + [Dispatch(config, mailOk, w.url, CheckError(e))])
  }

  /** The `for` loop of `checkWebsiteChanges` over the selected rows `due`, in
      order; the network and the mail transport answer per site id. */
  function Tick(s: State, due: seq<Website>, now: int, hash: Body -> Digest, config: EmailConfig,
                net: int -> Network, mail: int -> bool): (r: State)
    ensures |r.websites| == |s.websites|
    ensures |s.changes| <= |r.changes| <= |s.changes| + |due|
    ensures |s.notices| <= |r.notices| <= |s.notices| + |due|
  {
    if due == [] then s
    else
      var w := due[|due| - 1];
      Step(Tick(s, due[..|due| - 1], now, hash, config, net, mail),
           w, Evaluate(hash, net(w.id), w), now, config, mail(w.id))
  }

  /** Checking the next selected site extends a tick by one step. */
  lemma TickNext(s: State, ds: seq<Website>, i: int, now: int, hash: Body -> Digest,
                 config: EmailConfig, net: int -> Network, mail: int -> bool)
    requires 0 <= i < |ds|
    ensures Tick(s, ds[..i + 1], now, hash, config, net, mail)
         == Step(Tick(s, ds[..i], now, hash, config, net, mail), ds[i], Evaluate(hash, net(ds[i].id), ds[i]),
                 now, config, mail(ds[i].id))
  {
    assert ds[..i + 1][..i] == ds[..i];
  }

  /** A step writes to the checked site's row only, and that row becomes the
      row as it was after a check with that outcome; the table keeps its rows
      and their ids. */
  lemma StepRows(s: State, w: Website, o: Outcome, now: int, config: EmailConfig, mailOk: bool)
    ensures var r := Step(s, w, o, now, config, mailOk).websites;
      |r| == |s.websites| &&
      forall i :: 0 <= i < |r| ==>
        r[i] == (if s.websites[i].id == w.id then AfterCheck(s.websites[i], o, now) else s.websites[i])
  {
  }

  /** A step only appends: on a change one change row, numbered after the
      last, with the digest read and the new one; on a change or a failure one
      notice with the message for the outcome; a failure writes no row. */
  lemma StepAppends(s: State, w: Website, o: Outcome, now: int, config: EmailConfig, mailOk: bool)
    ensures var r := Step(s, w, o, now, config, mailOk);
      (o.Failed? ==> r.websites == s.websites) &&
      r.changes[..|s.changes|] == s.changes && r.notices[..|s.notices|] == s.notices &&
      (o.Changed? ==> r.changes[|s.changes|] == Change(|s.changes| + 1, w.id, w.lastHash, o.digest, now)) &&
      (!o.Unchanged? ==> r.notices[|s.notices|] == Dispatch(config, mailOk, w.url, Alert(o)))
  {
  }

  /** The sites among `ds` whose check records a change, in order. */
  function ChangedSites(ds: seq<Website>, hash: Body -> Digest, net: int -> Network): (cs: seq<Website>)
    ensures forall w :: w in cs <==> w in ds && Evaluate(hash, net(w.id), w).Changed?
  {
    if ds == [] then []
    else
      var w := ds[|ds| - 1];
      assert ds == ds[..|ds| - 1] + [w];
      ChangedSites(ds[..|ds| - 1], hash, net) + (if Evaluate(hash, net(w.id), w).Changed? then [w] else [])
  }

  /** The sites among `ds` whose check sends a notice, in order. */
  function AlertedSites(ds: seq<Website>, hash: Body -> Digest, net: int -> Network): (as_: seq<Website>)
    ensures forall w :: w in as_ <==> w in ds && !Evaluate(hash, net(w.id), w).Unchanged?
  {
    if ds == [] then []
    else
      var w := ds[|ds| - 1];
      assert ds == ds[..|ds| - 1] + [w];
      AlertedSites(ds[..|ds| - 1], hash, net) + (if !Evaluate(hash, net(w.id), w).Unchanged? then [w] else [])
  }

  /** The change row recorded for site `w` as read, numbered `id`. */
  function ChangeRow(w: Website, id: int, now: int, hash: Body -> Digest, net: int -> Network): Change
    requires Evaluate(hash, net(w.id), w).Changed?
  {
    Change(id, w.id, w.lastHash, Evaluate(hash, net(w.id), w).digest, now)
  }

  /** Visiting the next row of a sequence with unique ids adds an id that was
      not visited before. */
  lemma IdsNext(ds: seq<Website>, k: int)
    requires UniqueIds(ds) && 0 <= k < |ds|
    ensures Ids(ds[..k + 1]) == Ids(ds[..k]) + {ds[k].id}
    ensures ds[k].id !in Ids(ds[..k])
  {
    assert ds[..k + 1] == ds[..k] + [ds[k]];
    forall j | 0 <= j < k ensures ds[..k][j].id != ds[k].id {
    }
  }

  /** In a table with unique ids a row is determined by its id. */
  lemma SameIdSameRow(ws: seq<Website>, i: int, d: Website)
    requires UniqueIds(ws) && 0 <= i < |ws| && d in ws && ws[i].id == d.id
    ensures ws[i] == d
  {
    var j :| 0 <= j < |ws| && ws[j] == d;
  }

  /** Over the first k rows of any sequence of distinct rows of the table, the
      loop leaves the rows it did not visit untouched and turns each visited
      row into that row after its own check. */
  lemma {:induction false} TickRows(s: State, ds: seq<Website>, k: nat, now: int, hash: Body -> Digest,
                                    config: EmailConfig, net: int -> Network, mail: int -> bool)
    requires k <= |ds| && UniqueIds(s.websites) && UniqueIds(ds)
    requires forall d :: d in ds ==> d in s.websites
    ensures var r := Tick(s, ds[..k], now, hash, config, net, mail).websites;
      |r| == |s.websites| &&
      forall i :: 0 <= i < |r| ==>
        r[i] == (if s.websites[i].id in Ids(ds[..k]) then Checked(s.websites[i], now, hash, net) else s.websites[i])
  {
    if k == 0 {
      assert ds[..0] == [];
    } else {
      var d := ds[k - 1];
      TickRows(s, ds, k - 1, now, hash, config, net, mail);
      IdsNext(ds, k - 1);
      var prev := Tick(s, ds[..k - 1], now, hash, config, net, mail);
      TickNextRows(s, ds, k - 1, now, hash, config, net, mail);
      VisitOneMore(s.websites, prev.websites, Tick(s, ds[..k], now, hash, config, net, mail).websites,
                   Ids(ds[..k - 1]), d, now, hash, net);
    }
  }

  /** The table after checking the next selected site: only that site's row
      is written, with the outcome of its check. */
  lemma TickNextRows(s: State, ds: seq<Website>, i: int, now: int, hash: Body -> Digest,
                     config: EmailConfig, net: int -> Network, mail: int -> bool)
    requires 0 <= i < |ds|
    ensures var prev := Tick(s, ds[..i], now, hash, config, net, mail).websites;
      var r := Tick(s, ds[..i + 1], now, hash, config, net, mail).websites;
      |r| == |prev| &&
      forall j :: 0 <= j < |prev| ==>
        r[j] == (if prev[j].id == ds[i].id then AfterCheck(prev[j], Evaluate(hash, net(ds[i].id), ds[i]), now) else prev[j])
  {
    TickNext(s, ds, i, now, hash, config, net, mail);
    var prev := Tick(s, ds[..i], now, hash, config, net, mail);
    StepRows(prev, ds[i], Evaluate(hash, net(ds[i].id), ds[i]), now, config, mail(ds[i].id));
  }

  /** The induction step of TickRows: visiting one more row, not visited
      before, extends the closed form by that row. */
  lemma VisitOneMore(ws: seq<Website>, prev: seq<Website>, r: seq<Website>, visited: set<int>, d: Website,
                     now: int, hash: Body -> Digest, net: int -> Network)
    requires UniqueIds(ws) && d in ws && d.id !in visited
    requires |prev| == |ws| &&
      forall i :: 0 <= i < |ws| ==> prev[i] == (if ws[i].id in visited then Checked(ws[i], now, hash, net) else ws[i])
    requires |r| == |prev| &&
      forall i :: 0 <= i < |prev| ==>
        r[i] == (if prev[i].id == d.id then AfterCheck(prev[i], Evaluate(hash, net(d.id), d), now) else prev[i])
    ensures forall i :: 0 <= i < |r| ==>
      r[i] == (if ws[i].id in visited + {d.id} then Checked(ws[i], now, hash, net) else ws[i])
  {
    forall i | 0 <= i < |ws| && ws[i].id == d.id ensures ws[i] == d {
      SameIdSameRow(ws, i, d);
    }
  }

  /** The loop appends to `changes` and never rewrites a row: one row per site
      whose check records a change, in order, numbered on from the table's
      last row, holding the digest read before the check and the new one. */
  lemma {:induction false} TickChanges(s: State, ds: seq<Website>, now: int, hash: Body -> Digest,
                                       config: EmailConfig, net: int -> Network, mail: int -> bool)
    ensures var r := Tick(s, ds, now, hash, config, net, mail).changes;
      var cs := ChangedSites(ds, hash, net);
      |r| == |s.changes| + |cs| && r[..|s.changes|] == s.changes &&
      forall k :: 0 <= k < |cs| ==> r[|s.changes| + k] == ChangeRow(cs[k], |s.changes| + k + 1, now, hash, net)
  {
    if ds != [] {
      var n := |ds| - 1;
      TickChanges(s, ds[..n], now, hash, config, net, mail);
    }
  }

  /** The loop sends one notice per site whose check changed or failed, in
      order, with the message for its outcome, and no other. */
  lemma {:induction false} TickNotices(s: State, ds: seq<Website>, now: int, hash: Body -> Digest,
                                       config: EmailConfig, net: int -> Network, mail: int -> bool)
    ensures var r := Tick(s, ds, now, hash, config, net, mail).notices;
      var as_ := AlertedSites(ds, hash, net);
      |r| == |s.notices| + |as_| && r[..|s.notices|] == s.notices &&
      forall k :: 0 <= k < |as_| ==>
        r[|s.notices| + k] == Dispatch(config, mail(as_[k].id), as_[k].url, Alert(Evaluate(hash, net(as_[k].id), as_[k])))
  {
    if ds != [] {
      var n := |ds| - 1;
      TickNotices(s, ds[..n], now, hash, config, net, mail);
      var prev := Tick(s, ds[..n], now, hash, config, net, mail).notices;
      var r := Tick(s, ds, now, hash, config, net, mail).notices;
      assert r[..|prev|] == prev;
    }
  }

  /** A row is visited by a tick exactly when it is due: the id of a row is
      among the ids of the selected rows exactly when that row is due. */
  lemma DueIds(ws: seq<Website>, now: int, i: int)
    requires UniqueIds(ws) && 0 <= i < |ws|
    ensures ws[i].id in Ids(DueWebsites(ws, now)) <==> IsDue(ws[i], now)
  {
    var due := DueWebsites(ws, now);
    if ws[i].id in Ids(due) {
      var e :| e in due && e.id == ws[i].id;
      SameIdSameRow(ws, i, e);
    } else {
      assert ws[i] in ws;
    }
  }

  /** `checkWebsiteChanges` on the table: every due row becomes that row after
      its own check, once, and every row that is not due is left untouched; the
      table keeps its rows in their order. */
  lemma CheckRows(s: State, now: int, hash: Body -> Digest, config: EmailConfig,
                  net: int -> Network, mail: int -> bool)
    requires UniqueIds(s.websites)
    ensures var ws := s.websites;
      var r := Tick(s, DueWebsites(ws, now), now, hash, config, net, mail).websites;
      |r| == |ws| &&
      forall i :: 0 <= i < |r| ==>
        r[i] == (if IsDue(ws[i], now) then Checked(ws[i], now, hash, net) else ws[i])
  {
    var ws := s.websites;
    var due := DueWebsites(ws, now);
    DueWebsitesOnce(ws, now);
    TickRows(s, due, |due|, now, hash, config, net, mail);
    assert due[..|due|] == due;
    forall i | 0 <= i < |ws| ensures ws[i].id in Ids(DueWebsites(ws, now)) <==> IsDue(ws[i], now) {
      DueIds(ws, now, i);
    }
  }

  /** A change row is appended for a site exactly when the site is due, its
      fetch succeeded and the digest differs from the one stored; rows that are
      not due, unchanged or failed add none. */
  lemma CheckRecordsChanges(s: State, now: int, hash: Body -> Digest, config: EmailConfig,
                            net: int -> Network, mail: int -> bool)
    ensures var cs := ChangedSites(DueWebsites(s.websites, now), hash, net);
      var r := Tick(s, DueWebsites(s.websites, now), now, hash, config, net, mail).changes;
      |r| == |s.changes| + |cs| && r[..|s.changes|] == s.changes &&
      (forall k :: 0 <= k < |cs| ==> r[|s.changes| + k] == ChangeRow(cs[k], |s.changes| + k + 1, now, hash, net)) &&
      forall w :: w in cs <==>
        w in s.websites && IsDue(w, now) &&
        FetchAndHash(hash, net(w.id), 0).result.Success? &&
        Some(FetchAndHash(hash, net(w.id), 0).result.value) != w.lastHash
  {
    TickChanges(s, DueWebsites(s.websites, now), now, hash, config, net, mail);
  }

  /** A check never moves a row's check time backwards. */
  lemma LastCheckedNeverDecreases(s: State, now: int, hash: Body -> Digest, config: EmailConfig,
                                  net: int -> Network, mail: int -> bool)
    requires UniqueIds(s.websites)
    requires forall w :: w in s.websites ==> w.lastChecked <= now
    ensures var r := Tick(s, DueWebsites(s.websites, now), now, hash, config, net, mail).websites;
      |r| == |s.websites| &&
      forall i :: 0 <= i < |r| ==> s.websites[i].lastChecked <= r[i].lastChecked <= now
  {
    CheckRows(s, now, hash, config, net, mail);
    var ws := s.websites;
    forall i | 0 <= i < |ws| ensures ws[i].lastChecked <= now {
      assert ws[i] in ws;
    }
  }

  /** A due site whose fetch fails is written nowhere, so its deadline does not
      move and it is due again at every later tick. */
  lemma FailingSiteStaysDue(s: State, now: int, hash: Body -> Digest, config: EmailConfig,
                            net: int -> Network, mail: int -> bool, i: int, later: int)
    requires UniqueIds(s.websites) && 0 <= i < |s.websites|
    requires IsDue(s.websites[i], now) && now <= later
    requires FetchAndHash(hash, net(s.websites[i].id), 0).result.Failure?
    ensures var r := Tick(s, DueWebsites(s.websites, now), now, hash, config, net, mail).websites;
      |r| == |s.websites| && r[i] == s.websites[i] && IsDue(r[i], later)
  {
    CheckRows(s, now, hash, config, net, mail);
  }

  /** Checking a site again when the network serves the same content finds
      nothing new: the row after a successful check compares equal. */
  lemma RecheckIsUnchanged(hash: Body -> Digest, net: Network, w: Website, now: int)
    requires !Evaluate(hash, net, w).Failed?
    ensures Evaluate(hash, net, AfterCheck(w, Evaluate(hash, net, w), now)) == Unchanged
  {
  }

  /** Two ticks in a row over the same content: a site that was checked
      successfully by the first is not a changed site of the second, and the
      second appends no change row for it. */
  lemma SecondTickRecordsNoChange(s: State, now1: int, now2: int, hash: Body -> Digest,
                                  config: EmailConfig, net: int -> Network, mail: int -> bool, i: int)
    requires UniqueIds(s.websites) && 0 <= i < |s.websites|
    requires IsDue(s.websites[i], now1)
    requires FetchAndHash(hash, net(s.websites[i].id), 0).result.Success?
    ensures var s1 := Tick(s, DueWebsites(s.websites, now1), now1, hash, config, net, mail);
      var s2 := Tick(s1, DueWebsites(s1.websites, now2), now2, hash, config, net, mail);
      |s1.websites| == |s.websites| &&
      s1.websites[i] !in ChangedSites(DueWebsites(s1.websites, now2), hash, net) &&
      forall c :: c in s2.changes[|s1.changes|..] ==> c.websiteId != s.websites[i].id
  {
    var s1 := Tick(s, DueWebsites(s.websites, now1), now1, hash, config, net, mail);
    var w := s.websites[i];
    assert s1.websites[i] !in ChangedSites(DueWebsites(s1.websites, now2), hash, net) by {
      CheckRows(s, now1, hash, config, net, mail);
      RecheckIsUnchanged(hash, net(w.id), w, now1);
    }
    assert UniqueIds(s1.websites) && s1.websites[i].id == w.id by {
      CheckRowFields(s, now1, hash, config, net, mail);
      SameIdSet(s.websites, s1.websites);
    }
    NoChangeRowFor(s1, now2, hash, config, net, mail, i);
  }

  /** A row that is not a changed site of a tick gets no change row from it. */
  lemma NoChangeRowFor(s: State, now: int, hash: Body -> Digest, config: EmailConfig,
                       net: int -> Network, mail: int -> bool, i: int)
    requires UniqueIds(s.websites) && 0 <= i < |s.websites|
    requires s.websites[i] !in ChangedSites(DueWebsites(s.websites, now), hash, net)
    ensures var r := Tick(s, DueWebsites(s.websites, now), now, hash, config, net, mail).changes;
      |s.changes| <= |r| && forall c :: c in r[|s.changes|..] ==> c.websiteId != s.websites[i].id
  {
    CheckRecordsChanges(s, now, hash, config, net, mail);
    RowsOfOtherSites(s.changes, Tick(s, DueWebsites(s.websites, now), now, hash, config, net, mail).changes,
                     ChangedSites(DueWebsites(s.websites, now), hash, net), s.websites, i, now, hash, net);
  }

  /** Change rows appended for changed sites of a table, among which row `i`
      is not, all refer to sites other than row `i`'s. */
  lemma RowsOfOtherSites(base: seq<Change>, r: seq<Change>, cs: seq<Website>, ws: seq<Website>, i: int,
                         now: int, hash: Body -> Digest, net: int -> Network)
    requires UniqueIds(ws) && 0 <= i < |ws| && ws[i] !in cs
    requires forall w :: w in cs ==> w in ws && Evaluate(hash, net(w.id), w).Changed?
    requires |r| == |base| + |cs|
    requires forall k :: 0 <= k < |cs| ==> r[|base| + k] == ChangeRow(cs[k], |base| + k + 1, now, hash, net)
    ensures forall c :: c in r[|base|..] ==> c.websiteId != ws[i].id
  {
    forall c | c in r[|base|..] ensures c.websiteId != ws[i].id {
      var k :| 0 <= k < |r| - |base| && r[|base|..][k] == c;
      assert c == r[|base| + k];
      assert cs[k] in cs;
      OtherRowOtherId(ws, i, cs[k]);
    }
  }

  /** In a table with unique ids, another row of the table has another id. */
  lemma OtherRowOtherId(ws: seq<Website>, i: int, d: Website)
    requires UniqueIds(ws) && 0 <= i < |ws| && d in ws && d != ws[i]
    ensures d.id != ws[i].id
  {
    var j :| 0 <= j < |ws| && ws[j] == d;
  }

  /** Rows with the same ids at the same places have the same id set. */
  lemma SameIdSet(ws: seq<Website>, vs: seq<Website>)
    requires |ws| == |vs| && forall i :: 0 <= i < |ws| ==> ws[i].id == vs[i].id
    ensures Ids(ws) == Ids(vs) && (UniqueIds(ws) <==> UniqueIds(vs))
  {
    forall x | x in Ids(ws) ensures x in Ids(vs) {
      var w :| w in ws && w.id == x;
      var i :| 0 <= i < |ws| && ws[i] == w;
      assert vs[i] in vs;
    }
    forall x | x in Ids(vs) ensures x in Ids(ws) {
      var v :| v in vs && v.id == x;
      var i :| 0 <= i < |vs| && vs[i] == v;
      assert ws[i] in ws;
    }
  }

  /** Field by field, a tick keeps every row's id, never clears a baseline,
      and either leaves a row's check time or sets it to the tick's time. */
  lemma CheckRowFields(s: State, now: int, hash: Body -> Digest, config: EmailConfig,
                       net: int -> Network, mail: int -> bool)
    requires UniqueIds(s.websites)
    ensures var ws := s.websites;
      var r := Tick(s, DueWebsites(ws, now), now, hash, config, net, mail).websites;
      |r| == |ws| &&
      forall i :: 0 <= i < |r| ==>
        r[i].id == ws[i].id && (ws[i].lastHash.Some? ==> r[i].lastHash.Some?) &&
        (r[i].lastChecked == ws[i].lastChecked || r[i].lastChecked == now)
  {
    CheckRows(s, now, hash, config, net, mail);
    var ws := s.websites;
    RowFields(ws, Tick(s, DueWebsites(ws, now), now, hash, config, net, mail).websites, now, hash, net);
  }

  /** Field by field, rows that are either kept or replaced by their own
      checked row keep their id and baseline and either keep their check time
      or take the time of the check. */
  lemma RowFields(ws: seq<Website>, r: seq<Website>, now: int, hash: Body -> Digest, net: int -> Network)
    requires |r| == |ws| &&
      forall i :: 0 <= i < |r| ==> r[i] == (if IsDue(ws[i], now) then Checked(ws[i], now, hash, net) else ws[i])
    ensures forall i :: 0 <= i < |r| ==>
      r[i].id == ws[i].id && (ws[i].lastHash.Some? ==> r[i].lastHash.Some?) &&
      (r[i].lastChecked == ws[i].lastChecked || r[i].lastChecked == now)
  {
    forall i | 0 <= i < |ws|
      ensures var c := Checked(ws[i], now, hash, net);
        c.id == ws[i].id && (ws[i].lastHash.Some? ==> c.lastHash.Some?) &&
        (c.lastChecked == ws[i].lastChecked || c.lastChecked == now)
    {
      CheckedFields(ws[i], now, hash, net);
    }
  }

  /** A check keeps the row's id and baseline, and either leaves its check time
      or sets it to the time of the check. */
  lemma CheckedFields(w: Website, now: int, hash: Body -> Digest, net: int -> Network)
    ensures var c := Checked(w, now, hash, net);
      c.id == w.id && (w.lastHash.Some? ==> c.lastHash.Some?) &&
      (c.lastChecked == w.lastChecked || c.lastChecked == now)
  {
  }

  /** The rows of the table after a tick keep the ids and baselines they had,
      and their check times stay no later than the tick's time. */
  lemma CheckKeepsRows(s: State, clock: int, nextId: int, now: int, hash: Body -> Digest,
                       config: EmailConfig, net: int -> Network, mail: int -> bool)
    requires Consistent(s, clock, nextId) && clock <= now
    ensures var r := Tick(s, DueWebsites(s.websites, now), now, hash, config, net, mail).websites;
      Ids(r) == Ids(s.websites) && UniqueIds(r) &&
      forall w :: w in r ==> 1 <= w.id < nextId && w.lastHash.Some? && w.lastChecked <= now
  {
    var ws := s.websites;
    CheckRowFields(s, now, hash, config, net, mail);
    KeptRows(ws, Tick(s, DueWebsites(ws, now), now, hash, config, net, mail).websites, clock, nextId, now);
  }

  /** Rows that keep their ids and baselines, and whose check times are
      kept or set to `now`, keep a table's unique ids, their bounds and
      baselines, and no check time later than `now`. */
  lemma KeptRows(ws: seq<Website>, r: seq<Website>, clock: int, nextId: int, now: int)
    requires UniqueIds(ws) && clock <= now
    requires forall w :: w in ws ==> 1 <= w.id < nextId && w.lastHash.Some? && w.lastChecked <= clock
    requires |r| == |ws| &&
      forall i :: 0 <= i < |r| ==>
        r[i].id == ws[i].id && (ws[i].lastHash.Some? ==> r[i].lastHash.Some?) &&
        (r[i].lastChecked == ws[i].lastChecked || r[i].lastChecked == now)
    ensures Ids(r) == Ids(ws) && UniqueIds(r)
    ensures forall w :: w in r ==> 1 <= w.id < nextId && w.lastHash.Some? && w.lastChecked <= now
  {
    SameIdSet(ws, r);
    forall w | w in r ensures 1 <= w.id < nextId && w.lastHash.Some? && w.lastChecked <= now {
      var i :| 0 <= i < |r| && r[i] == w;
      assert ws[i] in ws;
    }
  }

  /** A tick at a time no earlier than the clock keeps the monitor's state
      consistent, with the clock moved to the tick's time. */
  lemma CheckPreservesConsistent(s: State, clock: int, nextId: int, now: int, hash: Body -> Digest,
                                 config: EmailConfig, net: int -> Network, mail: int -> bool)
    requires Consistent(s, clock, nextId) && clock <= now
    ensures Consistent(Tick(s, DueWebsites(s.websites, now), now, hash, config, net, mail), now, nextId)
  {
    var ws := s.websites;
    var r := Tick(s, DueWebsites(ws, now), now, hash, config, net, mail);
    CheckKeepsRows(s, clock, nextId, now, hash, config, net, mail);
    CheckRecordsChanges(s, now, hash, config, net, mail);
    AppendedChangesConsistent(s, r, ChangedSites(DueWebsites(ws, now), hash, net), clock, nextId, now, hash, net);
    ConsistentParts(r, now, nextId);
  }

  /** The four parts of `Consistent`, assembled. */
  lemma ConsistentParts(r: State, clock: int, nextId: int)
    requires 1 <= nextId && UniqueIds(r.websites)
    requires forall w :: w in r.websites ==> 1 <= w.id < nextId && w.lastHash.Some? && w.lastChecked <= clock
    requires forall k :: 0 <= k < |r.changes| ==>
      r.changes[k].id == k + 1 && r.changes[k].websiteId in Ids(r.websites) && r.changes[k].detectedAt <= clock
    ensures Consistent(r, clock, nextId)
  {
  }

  /** Change rows appended after those of a consistent state, one per
      changed site of its table, are numbered on, refer to sites still in the
      table and were detected no later than the tick. */
  lemma AppendedChangesConsistent(s: State, r: State, cs: seq<Website>, clock: int, nextId: int, now: int,
                                  hash: Body -> Digest, net: int -> Network)
    requires Consistent(s, clock, nextId) && clock <= now && Ids(r.websites) == Ids(s.websites)
    requires forall w :: w in cs ==> w in s.websites && Evaluate(hash, net(w.id), w).Changed?
    requires |r.changes| == |s.changes| + |cs| && r.changes[..|s.changes|] == s.changes
    requires forall k :: 0 <= k < |cs| ==> r.changes[|s.changes| + k] == ChangeRow(cs[k], |s.changes| + k + 1, now, hash, net)
    ensures forall k :: 0 <= k < |r.changes| ==>
      r.changes[k].id == k + 1 && r.changes[k].websiteId in Ids(r.websites) && r.changes[k].detectedAt <= now
  {
    forall k | 0 <= k < |r.changes|
      ensures r.changes[k].id == k + 1 && r.changes[k].websiteId in Ids(r.websites) && r.changes[k].detectedAt <= now
    {
      if k < |s.changes| {
        assert r.changes[k] == r.changes[..|s.changes|][k];
      } else {
        var c := cs[k - |s.changes|];
        assert c in cs;
        assert c.id in Ids(s.websites);
      }
    }
  }

  /** `check_frequency` when the caller gives none. */
  const DEFAULT_CHECK_FREQUENCY: int := 1

  /** `addWebsiteToMonitor(url, checkFrequency)` given the id the insert gets:
      fetch first, and only when that succeeds insert a row whose baseline is
      the digest fetched, checked now, then send the confirmation notice; a
      failed fetch throws its error and writes nothing. */
  function Register(s: State, id: int, url: string, checkFrequency: Option<int>, now: int,
                    hash: Body -> Digest, config: EmailConfig, net: Network, mailOk: bool): (r: Result<State, FetchError>)
    ensures r.Failure? <==> FetchAndHash(hash, net, 0).result.Failure?
    ensures r.Failure? ==> r.error == FetchAndHash(hash, net, 0).result.error
    ensures r.Success? ==>
      |r.value.websites| == |s.websites| + 1 && r.value.websites[..|s.websites|] == s.websites &&
      r.value.changes == s.changes && |r.value.notices| == |s.notices| + 1
  {
    match FetchAndHash(hash, net, 0).result
    case Failure(e) => Failure(e)
    case Success(d) =>
      var frequency := if checkFrequency.Some? then checkFrequency.value else DEFAULT_CHECK_FREQUENCY;
      Success(State(s.websites + [Website(id, url, Some(d), now, frequency)], s.changes,
                    s.notices + [Dispatch(config, mailOk, url, Added)]))
  }

  /** Registration sets the baseline: it succeeds exactly when its fetch does;
      then it appends exactly one row, with the next id, the url, the fetched
      digest and the interval given (1 hour when none is), and sends the
      confirmation notice. The row is not due before its first interval has
      passed (never, when the interval is negative), and a first check that
      sees the same content records no change. It keeps the state consistent. */
  lemma RegisterSetsBaseline(s: State, clock: int, nextId: int, url: string, checkFrequency: Option<int>,
                             now: int, hash: Body -> Digest, config: EmailConfig, net: Network, mailOk: bool)
    requires Consistent(s, clock, nextId) && clock <= now
    ensures var f := FetchAndHash(hash, net, 0).result;
      var r := Register(s, nextId, url, checkFrequency, now, hash, config, net, mailOk);
      (r.Failure? <==> f.Failure?) &&
      (r.Failure? ==> r.error == f.error) &&
      (r.Success? ==>
        var row := r.value.websites[|s.websites|];
        |r.value.websites| == |s.websites| + 1 &&
        r.value.websites[..|s.websites|] == s.websites && r.value.changes == s.changes &&
        r.value.notices == s.notices + [Dispatch(config, mailOk, url, Added)] &&
        row.id == nextId && row.url == url && row.lastHash == Some(f.value) && row.lastChecked == now &&
        (checkFrequency.None? ==> row.checkFrequency == 1) &&
        (checkFrequency.Some? ==> row.checkFrequency == checkFrequency.value) &&
        (row.checkFrequency > 0 ==> forall t :: t < now + row.checkFrequency * SECONDS_PER_HOUR ==> !IsDue(row, t)) &&
        (row.checkFrequency < 0 ==> forall t :: !IsDue(row, t)) &&
        Evaluate(hash, net, row) == Unchanged &&
        Consistent(r.value, now, nextId + 1))
  {
    var r := Register(s, nextId, url, checkFrequency, now, hash, config, net, mailOk);
    if r.Success? {
      var ws := r.value.websites;
      assert ws[..|s.websites|] == s.websites;
      forall i, j | 0 <= i < |ws| && 0 <= j < |ws| && ws[i].id == ws[j].id ensures i == j {
        if i < |s.websites| { assert ws[i] in s.websites; }
        if j < |s.websites| { assert ws[j] in s.websites; }
      }
      assert Ids(s.websites) <= Ids(ws);
      var row := ws[|s.websites|];
      assert ws == s.websites + [row];
      assert row.id == nextId && row.lastHash.Some? && row.lastChecked == now;
      forall w | w in ws ensures 1 <= w.id < nextId + 1 && w.lastHash.Some? && w.lastChecked <= now {
        if w != row {
          assert w in s.websites;
          assert w.lastChecked <= clock;
        }
      }
    }
  }

  /** A page that always answers 200 with the same body hashes to that body's
      digest at the first request. */
  lemma StaticPage(hash: Body -> Digest, net: Network, body: Body)
    requires forall k :: net(k) == Response(200, body)
    ensures FetchAndHash(hash, net, 0).result == Success(hash(body))
  {
    assert IsOk(net(0));
  }

  /** A tick over a table of one due row is one step for that row. */
  lemma OneRowTick(s: State, row: Website, now: int, hash: Body -> Digest, config: EmailConfig,
                   net: int -> Network, mail: int -> bool)
    requires s.websites == [row] && IsDue(row, now)
    ensures Tick(s, DueWebsites(s.websites, now), now, hash, config, net, mail)
         == Step(s, row, Evaluate(hash, net(row.id), row), now, config, mail(row.id))
  {
    assert DueWebsites(s.websites, now) == [row];
    assert [row][..0] == [];
  }

  /** The two `UPDATE`s on a table of one row with the id they name. */
  lemma UpdateOneRow(w: Website, d: Digest, now: int)
    ensures RecordChange([w], w.id, d, now) == [w.(lastHash := Some(d), lastChecked := now)]
    ensures RecordCheck([w], w.id, now) == [w.(lastChecked := now)]
  {
  }

  /** Registering a page that serves "A" with a daily interval stores the
      digest of "A" as its baseline. */
  lemma RegisterScenario(hash: Body -> Digest, config: EmailConfig, t0: int, netA: Network, s0: State)
    requires forall k :: netA(k) == Response(200, "A")
    requires Register(State([], [], []), 1, "https://example.com/page", Some(24), t0, hash, config, netA, true)
             == Success(s0)
    ensures s0 == State([Website(1, "https://example.com/page", Some(hash("A")), t0, 24)], [],
                        [Dispatch(config, true, "https://example.com/page", Added)])
  {
    StaticPage(hash, netA, "A");
  }

  /** A day later the page serves "B": the check records one change from the
      old digest to the new one, stores the new digest and sends one notice. */
  lemma ChangeScenario(hash: Body -> Digest, config: EmailConfig, t0: int, netB: int -> Network,
                       mail: int -> bool, s0: State, s1: State)
    requires hash("A") != hash("B")
    requires forall id, k :: netB(id)(k) == Response(200, "B")
    requires s0.websites == [Website(1, "https://example.com/page", Some(hash("A")), t0, 24)] && s0.changes == []
    requires s1 == Tick(s0, DueWebsites(s0.websites, t0 + 86400), t0 + 86400, hash, config, netB, mail)
    ensures s1 == State([Website(1, "https://example.com/page", Some(hash("B")), t0 + 86400, 24)],
                        [Change(1, 1, Some(hash("A")), hash("B"), t0 + 86400)],
                        s0.notices + [Dispatch(config, mail(1), "https://example.com/page", ContentChanged)])
  {
    var row0 := s0.websites[0];
    StaticPage(hash, netB(1), "B");
    OneRowTick(s0, row0, t0 + 86400, hash, config, netB, mail);
    UpdateOneRow(row0, hash("B"), t0 + 86400);
  }

  /** Another day later the page still serves "B": the check only moves the
      check time; no change row and no notice. */
  lemma SameContentScenario(hash: Body -> Digest, config: EmailConfig, t1: int, netB: int -> Network,
                            mail: int -> bool, s1: State, s2: State)
    requires forall id, k :: netB(id)(k) == Response(200, "B")
    requires s1.websites == [Website(1, "https://example.com/page", Some(hash("B")), t1, 24)]
    requires s2 == Tick(s1, DueWebsites(s1.websites, t1 + 86400), t1 + 86400, hash, config, netB, mail)
    ensures s2 == State([Website(1, "https://example.com/page", Some(hash("B")), t1 + 86400, 24)],
                        s1.changes, s1.notices)
  {
    var row1 := s1.websites[0];
    StaticPage(hash, netB(1), "B");
    OneRowTick(s1, row1, t1 + 86400, hash, config, netB, mail);
    UpdateOneRow(row1, hash("B"), t1 + 86400);
  }
}
