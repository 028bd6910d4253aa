/** The monitor as the source runs it: `checkWebsiteChanges`,
    `addWebsiteToMonitor` and `sendEmail` of src/services/websiteMonitor.js
    writing the `websites` and `changes` tables in place, one statement at a
    time. Each method is proved to reach the state that the functions of
    module Evaluator describe. */
module Monitor {
  import opened Wrappers
  import opened Fetcher
  import opened Schedule
  import opened Notifier
  import opened Evaluator

  class WebsiteMonitor {
    /** SHA-256 of a body, as a hexadecimal digest. */
    const hash: Body -> Digest
    /** The email settings read at start-up. */
    const email: EmailConfig

    /** The `websites` table, in insertion order. */
    var websites: seq<Website>
    /** The append-only `changes` table, in insertion order. */
    var changes: seq<Change>
    /** Every call of `sendEmail`, in order, with what became of it. */
    var notices: seq<Notice>
    /** The time `datetime("now")` reads, in seconds; it never goes back. */
    var clock: int
    /** The id the next inserted site gets (`AUTOINCREMENT`). */
    var nextId: int

    function Current(): State
      reads this
    {
      State(websites, changes, notices)
    }

    ghost predicate Valid()
      reads this
    {
      Consistent(Current(), clock, nextId)
    }

    /** A monitor over empty tables. */
    constructor (hash: Body -> Digest, email: EmailConfig, start: int)
      ensures Valid()
      ensures this.hash == hash && this.email == email && clock == start
      ensures websites == [] && changes == [] && notices == []
    {
      this.hash := hash;
      this.email := email;
      websites, changes, notices := [], [], [];
      clock, nextId := start, 1;
    }

    /** `sendEmail(url, message)`: appends the notice of this call and changes
        nothing else; it has no error to raise, whatever the transport does. */
    method SendEmail(url: string, message: Message, transportOk: bool)
      modifies this`notices
      ensures notices == old(notices) + [Dispatch(email, transportOk, url, message)]
    {
      var delivery: Delivery;
      if !Configured(email) {
        delivery := Skipped;
      } else if transportOk {
        delivery := Delivered;
      } else {
        delivery := TransportFailed;
      }
      notices := notices + [Notice(url, message, delivery)];
    }

    /** `INSERT INTO changes (website_id, old_hash, new_hash)`, stamped now. */
    method InsertChange(websiteId: int, oldHash: Option<Digest>, newHash: Digest)
      requires Valid() && websiteId in Ids(websites)
      modifies this`changes
      ensures Valid()
      ensures changes == old(changes) + [Change(|old(changes)| + 1, websiteId, oldHash, newHash, clock)]
    {
      changes := changes + [Change(|changes| + 1, websiteId, oldHash, newHash, clock)];
    }

    /** `UPDATE websites SET last_hash = ?, last_checked = now WHERE id = ?`. */
    method UpdateHash(id: int, newHash: Digest)
      requires Valid()
      modifies this`websites
      ensures Valid() && Ids(websites) == Ids(old(websites))
      ensures websites == RecordChange(old(websites), id, newHash, clock)
    {
      var ws := RecordChange(websites, id, newHash, clock);
      SameIdSet(websites, ws);
      forall w | w in ws ensures 1 <= w.id < nextId && w.lastHash.Some? && w.lastChecked <= clock {
        var i :| 0 <= i < |ws| && ws[i] == w;
        assert websites[i] in websites;
      }
      websites := ws;
    }

    /** `UPDATE websites SET last_checked = now WHERE id = ?`. */
    method UpdateChecked(id: int)
      requires Valid()
      modifies this`websites
      ensures Valid() && Ids(websites) == Ids(old(websites))
      ensures websites == RecordCheck(old(websites), id, clock)
    {
      var ws := RecordCheck(websites, id, clock);
      SameIdSet(websites, ws);
      forall w | w in ws ensures 1 <= w.id < nextId && w.lastHash.Some? && w.lastChecked <= clock {
        var i :| 0 <= i < |ws| && ws[i] == w;
        assert websites[i] in websites;
      }
      websites := ws;
    }

    /** The body of the `for` loop for site `w` as it was read: fetch, then on a
        new digest insert the change row and, as a second write, update the
        row, then send the change notice; on the same digest update the check
        time only; when the fetch throws, catch it and send the error notice. */
    method CheckWebsite(w: Website, net: Network, mailOk: bool) returns (o: Outcome)
      requires Valid() && w.id in Ids(websites)
      modifies this`websites, this`changes, this`notices
      ensures Valid() && Ids(websites) == Ids(old(websites))
      ensures o == Evaluate(hash, net, w)
      ensures Current() == Step(old(Current()), w, o, clock, email, mailOk)
    {
      var fetched := FetchAndHash(hash, net, 0);
      match fetched.result
      case Failure(e) =>
        o := Failed(e);
        SendEmail(w.url, CheckError(e), mailOk);
      case Success(currentHash) =>
        if Some(currentHash) != w.lastHash {
          o := Changed(currentHash);
          InsertChange(w.id, w.lastHash, currentHash);
          UpdateHash(w.id, currentHash);
          SendEmail(w.url, ContentChanged, mailOk);
        } else {
          o := Unchanged;
          UpdateChecked(w.id);
        }
    }

    /** `checkWebsiteChanges()` at time `now`: select the due rows, then check
        each in turn; a failure of one never stops the others. `net` and `mail`
        say how the network and the mail transport answer for each site id. */
    method CheckWebsiteChanges(now: int, net: int -> Network, mail: int -> bool)
      requires Valid() && clock <= now
      modifies this
      ensures Valid() && clock == now && nextId == old(nextId)
      ensures Current() == Tick(old(Current()), DueWebsites(old(websites), now), now, hash, email, net, mail)
    {
      ConsistentLater(Current(), clock, now, nextId);
      clock := now;
      var due := DueWebsites(websites, now);
      ghost var start := Current();
      for i := 0 to |due|
        invariant Valid() && clock == now && nextId == old(nextId)
        invariant Ids(websites) == Ids(start.websites)
        invariant Current() == Tick(start, due[..i], now, hash, email, net, mail)
      {
        var website := due[i];
        assert website.id in Ids(websites) by {
          assert website in start.websites;
        }
        var outcome := CheckWebsite(website, net(website.id), mail(website.id));
        TickNext(start, due, i, now, hash, email, net, mail);
      }
      assert due[..|due|] == due;
    }

    /** `addWebsiteToMonitor(url, checkFrequency)` at time `now`: the fetch comes
        first, so when it throws nothing is inserted and nothing is sent;
        otherwise one row is appended with the fetched digest as its baseline
        and the confirmation notice is sent. */
    method AddWebsiteToMonitor(url: string, checkFrequency: Option<int>, now: int, net: Network, mailOk: bool)
      returns (error: Option<FetchError>)
      requires Valid() && clock <= now
      modifies this
      ensures Valid() && clock == now
      ensures match Register(old(Current()), old(nextId), url, checkFrequency, now, hash, email, net, mailOk)
        case Failure(e) => error == Some(e) && Current() == old(Current()) && nextId == old(nextId)
        case Success(s) => error == None && Current() == s && nextId == old(nextId) + 1
    {
      RegisterSetsBaseline(Current(), clock, nextId, url, checkFrequency, now, hash, email, net, mailOk);
      ConsistentLater(Current(), clock, now, nextId);
      clock := now;
      var fetched := FetchAndHash(hash, net, 0);
      match fetched.result
      case Failure(e) =>
        error := Some(e);
      case Success(initialHash) =>
        var frequency := if checkFrequency.Some? then checkFrequency.value else DEFAULT_CHECK_FREQUENCY;
        websites := websites + [Website(nextId, url, Some(initialHash), now, frequency)];
        nextId := nextId + 1;
        SendEmail(url, Added, mailOk);
        error := None;
    }
  }
}
