/**
 * One pass of the `while True` loop in `main` (alertas.py:73-78) and the `notify` call it
 * makes (alertas.py:38-49).  The process-wide `seen_alerts` set and the notifications
 * posted so far are the fields of a `Watcher`; the feed is an input sequence of alerts
 * (fetching it, the HTTP post and the sleep are not modelled).
 *
 * `Run` is the reference definition of a cycle over a snapshot of the feed; `Watcher.PollCycle`
 * is proved to follow it, and the lemmas below state what `Run` guarantees.
 */
module Poller {
  import opened TextCleaner
  import opened Geometry

  /** The fixed parts of every posted notification. */
  const Click: string := "https://smn.gob.ar/alertas"
  const Priority: int := 4
  const Tags: seq<string> := ["cloud_with_lightning"]

  /** The JSON body `notify` posts to ntfy.sh. */
  datatype Notification = Notification(
    topic: string, title: string, message: string, click: string, priority: int, tags: seq<string>)

  /** `notify(topic, alert)`: the title and the summary go out cleaned by `strip_tags`, with
      the fixed click URL, priority and tags. */
  function Notify(topic: string, title: string, summary: string): (n: Notification)
    ensures n.topic == topic && n.click == Click && n.priority == Priority && n.tags == Tags
    ensures |n.title| <= |title| && |n.message| <= |summary|
  {
    Notification(topic, StripTags(title), StripTags(summary), Click, Priority, Tags)
  }

  /** A posted title or message is a single line and holds no complete tag. */
  lemma NotifyCleans(topic: string, title: string, summary: string)
    ensures var n := Notify(topic, title, summary);
      && '\n' !in n.title && '\n' !in n.message
      && (forall i :: 0 <= i < |n.title| && n.title[i] == '<' ==> '>' !in n.title[i + 1..])
      && (forall i :: 0 <= i < |n.message| && n.message[i] == '<' ==> '>' !in n.message[i + 1..])
  {
    StripTagsClean(title);
    StripTagsClean(summary);
  }

  /** What a cycle needs to know of one alert, read before the cycle starts. */
  datatype Entry = Entry(title: string, summary: string, ring: seq<Coord>)

  function EntryOf(a: Alert): Entry
    reads a
  {
    Entry(a.title, a.summary, a.coords)
  }

  /** The alerts of a feed as they stand. */
  function Snapshot(alerts: seq<Alert>): seq<Entry>
    reads alerts
  {
    seq(|alerts|, i reads alerts requires 0 <= i < |alerts| => EntryOf(alerts[i]))
  }

  /** The notifications for the given alerts, in order. */
  function Notices(topic: string, es: seq<Entry>): seq<Notification>
  {
    seq(|es|, k requires 0 <= k < |es| => Notify(topic, es[k].title, es[k].summary))
  }

  /** The outcome of a cycle: the new `seen_alerts`, the alerts notified in order, and for
      each alert whether its containment was evaluated (which closes its ring). */
  datatype CycleResult = CycleResult(seen: set<string>, notified: seq<Entry>, probed: seq<bool>)

  /** Whether an alert is notified when it comes up: its title is unseen and its area
      contains the user. */
  predicate Fires(seen: set<string>, e: Entry, user: Coord, shapely: Shapely)
  {
    e.title !in seen && Contains(e.ring, user, shapely)
  }

  /** `seen_alerts` after one alert has been handled. */
  function Record(seen: set<string>, e: Entry, user: Coord, shapely: Shapely): set<string>
  {
    if Fires(seen, e, user, shapely) then seen + {e.title} else seen
  }

  /** The loop body of `main` over a feed, from a given `seen_alerts`: alerts are handled in
      feed order; one whose title is unseen has its containment evaluated (`and`
      short-circuits past seen titles), and if it contains the user it is notified and its
      title recorded. */
  function Run(seen: set<string>, feed: seq<Entry>, user: Coord, shapely: Shapely): (o: CycleResult)
    ensures |o.probed| == |feed|
    decreases |feed|
  {
    if feed == [] then CycleResult(seen, [], [])
    else
      var before := Run(seen, feed[..|feed| - 1], user, shapely);
      var e := feed[|feed| - 1];
      CycleResult(
        Record(before.seen, e, user, shapely),
        before.notified + (if Fires(before.seen, e, user, shapely) then [e] else []),
        before.probed + [e.title !in before.seen])
  }

  /** Handling the first `i + 1` alerts is handling the first `i` and then alert `i`. */
  lemma RunSnoc(seen: set<string>, feed: seq<Entry>, i: nat, user: Coord, shapely: Shapely)
    requires i < |feed|
    ensures var before := Run(seen, feed[..i], user, shapely);
      Run(seen, feed[..i + 1], user, shapely) ==
      CycleResult(
        Record(before.seen, feed[i], user, shapely),
        before.notified + (if Fires(before.seen, feed[i], user, shapely) then [feed[i]] else []),
        before.probed + [feed[i].title !in before.seen])
  {
    assert feed[..i + 1][..i] == feed[..i];
  }

  lemma NoticesAppend(topic: string, es: seq<Entry>, fs: seq<Entry>)
    ensures Notices(topic, es + fs) == Notices(topic, es) + Notices(topic, fs)
  {
  }

  lemma NoticesOne(topic: string, e: Entry)
    ensures Notices(topic, []) == [] && Notices(topic, [e]) == [Notify(topic, e.title, e.summary)]
  {
  }

  /** The rings of a feed once the first `|probed|` alerts have been handled. */
  function Rings(feed: seq<Entry>, probed: seq<bool>): (rs: seq<seq<Coord>>)
    ensures |rs| == |feed|
  {
    seq(|feed|, j requires 0 <= j < |feed| =>
      if j < |probed| && probed[j] then AfterCheck(feed[j].ring) else feed[j].ring)
  }

  lemma RingsStep(feed: seq<Entry>, probed: seq<bool>, b: bool)
    requires |probed| < |feed|
    ensures var i := |probed|;
      Rings(feed, probed + [b]) == Rings(feed, probed)[i := if b then AfterCheck(feed[i].ring) else feed[i].ring]
  {
  }

  /** The titles of some alerts. */
  function TitlesOf(es: seq<Entry>): set<string>
  {
    set e | e in es :: e.title
  }

  lemma TitlesOfSnoc(es: seq<Entry>, e: Entry)
    ensures TitlesOf(es + [e]) == TitlesOf(es) + {e.title}
  {
  }

  lemma TitlesOfEmpty(es: seq<Entry>)
    ensures TitlesOf(es) == {} <==> es == []
  {
    if es != [] {
      assert es[0].title in TitlesOf(es);
    }
  }

  /** The unseen titles of the feed's alerts whose area contains the user: the titles a
      cycle ought to notify. */
  function Matching(seen: set<string>, feed: seq<Entry>, user: Coord, shapely: Shapely): set<string>
  {
    set e | e in feed && e.title !in seen && Contains(e.ring, user, shapely) :: e.title
  }

  lemma MatchingSnoc(seen: set<string>, feed: seq<Entry>, e: Entry, user: Coord, shapely: Shapely)
    ensures Matching(seen, feed + [e], user, shapely) ==
      Matching(seen, feed, user, shapely) + (if e.title !in seen && Contains(e.ring, user, shapely) then {e.title} else {})
  {
  }

  /** `xs` is `ys` with some elements left out, the rest kept in order. */
  ghost predicate IsSubsequence<T>(xs: seq<T>, ys: seq<T>)
    decreases |ys|
  {
    if ys == [] then xs == []
    else
      || IsSubsequence(xs, ys[..|ys| - 1])
      || (xs != [] && xs[|xs| - 1] == ys[|ys| - 1] && IsSubsequence(xs[..|xs| - 1], ys[..|ys| - 1]))
  }

  /** After a cycle, `seen_alerts` is the old set plus exactly the titles notified. */
  lemma {:induction false} RunSeen(seen: set<string>, feed: seq<Entry>, user: Coord, shapely: Shapely)
    ensures Run(seen, feed, user, shapely).seen == seen + TitlesOf(Run(seen, feed, user, shapely).notified)
    decreases |feed|
  {
    if feed != [] {
      var init := feed[..|feed| - 1];
      var e := feed[|feed| - 1];
      var before := Run(seen, init, user, shapely);
      RunSeen(seen, init, user, shapely);
      if Fires(before.seen, e, user, shapely) {
        TitlesOfSnoc(before.notified, e);
      } else {
        assert before.notified + [] == before.notified;
      }
    }
  }

  /** Every alert a cycle notifies comes from the feed, had an unseen title and an area
      containing the user; no title is notified twice. */
  lemma {:induction false} RunNotifiesFresh(seen: set<string>, feed: seq<Entry>, user: Coord, shapely: Shapely)
    ensures var n := Run(seen, feed, user, shapely).notified;
      && (forall k :: 0 <= k < |n| ==> n[k] in feed && n[k].title !in seen && Contains(n[k].ring, user, shapely))
      && (forall a, b :: 0 <= a < b < |n| ==> n[a].title != n[b].title)
    decreases |feed|
  {
    if feed != [] {
      var init := feed[..|feed| - 1];
      var e := feed[|feed| - 1];
      var before := Run(seen, init, user, shapely);
      RunNotifiesFresh(seen, init, user, shapely);
      RunSeen(seen, init, user, shapely);
      assert forall x :: x in init ==> x in feed;
      if Fires(before.seen, e, user, shapely) {
        var n := before.notified + [e];
        forall a | 0 <= a < |before.notified|
          ensures n[a].title != e.title
        {
          assert n[a].title in TitlesOf(before.notified);
        }
      } else {
        assert before.notified + [] == before.notified;
      }
    }
  }

  /** A cycle notifies in feed order. */
  lemma {:induction false} RunKeepsOrder(seen: set<string>, feed: seq<Entry>, user: Coord, shapely: Shapely)
    ensures IsSubsequence(Run(seen, feed, user, shapely).notified, feed)
    decreases |feed|
  {
    if feed != [] {
      var init := feed[..|feed| - 1];
      var e := feed[|feed| - 1];
      var before := Run(seen, init, user, shapely);
      RunKeepsOrder(seen, init, user, shapely);
      if Fires(before.seen, e, user, shapely) {
        assert (before.notified + [e])[..|before.notified|] == before.notified;
      } else {
        assert before.notified + [] == before.notified;
      }
    }
  }

  /** The titles a cycle notifies are exactly the unseen titles of alerts whose area contains
      the user. */
  lemma {:induction false} RunNotifiesMatching(seen: set<string>, feed: seq<Entry>, user: Coord, shapely: Shapely)
    ensures TitlesOf(Run(seen, feed, user, shapely).notified) == Matching(seen, feed, user, shapely)
    decreases |feed|
  {
    if feed != [] {
      var init := feed[..|feed| - 1];
      var e := feed[|feed| - 1];
      var before := Run(seen, init, user, shapely);
      RunNotifiesMatching(seen, init, user, shapely);
      RunSeen(seen, init, user, shapely);
      assert init + [e] == feed;
      MatchingSnoc(seen, init, e, user, shapely);
      if Fires(before.seen, e, user, shapely) {
        TitlesOfSnoc(before.notified, e);
      } else {
        assert before.notified + [] == before.notified;
      }
    }
  }

  /** Alert `e` sits at a position of the feed where containment was evaluated and held. */
  ghost predicate ProbedAt(feed: seq<Entry>, probed: seq<bool>, e: Entry, user: Coord, shapely: Shapely)
  {
    exists i :: 0 <= i < |feed| && i < |probed| && feed[i] == e && probed[i] && Contains(feed[i].ring, user, shapely)
  }

  /** Every alert a cycle notifies sits at a position of the feed where containment was
      evaluated and held. */
  lemma {:induction false} RunNotifiesProbed(seen: set<string>, feed: seq<Entry>, user: Coord, shapely: Shapely)
    ensures forall k :: 0 <= k < |Run(seen, feed, user, shapely).notified| ==>
      ProbedAt(feed, Run(seen, feed, user, shapely).probed, Run(seen, feed, user, shapely).notified[k], user, shapely)
    decreases |feed|
  {
    if feed != [] {
      var init := feed[..|feed| - 1];
      var e := feed[|feed| - 1];
      var before := Run(seen, init, user, shapely);
      var o := Run(seen, feed, user, shapely);
      RunNotifiesProbed(seen, init, user, shapely);
      forall k | 0 <= k < |o.notified|
        ensures ProbedAt(feed, o.probed, o.notified[k], user, shapely)
      {
        if k < |before.notified| {
          assert o.notified[k] == before.notified[k];
          var i :| 0 <= i < |init| && i < |before.probed| && init[i] == before.notified[k] && before.probed[i] && Contains(init[i].ring, user, shapely);
          assert feed[i] == init[i] && o.probed[i] == before.probed[i];
        } else {
          assert Fires(before.seen, e, user, shapely);
          var i := |feed| - 1;
          assert feed[i] == o.notified[k] && o.probed[i];
        }
      }
    }
  }

  /** When several alerts share a title, the one notified is the first of them whose area
      contains the user: no earlier alert with its title contained the user. */
  lemma RunNotifiesFirst(seen: set<string>, feed: seq<Entry>, user: Coord, shapely: Shapely)
    ensures var n := Run(seen, feed, user, shapely).notified;
      forall k :: 0 <= k < |n| ==>
        exists i ::
          && 0 <= i < |feed| && feed[i] == n[k]
          && (forall j :: 0 <= j < i && feed[j].title == n[k].title ==> !Contains(feed[j].ring, user, shapely))
  {
    var o := Run(seen, feed, user, shapely);
    RunNotifiesProbed(seen, feed, user, shapely);
    forall k | 0 <= k < |o.notified|
      ensures exists i ::
        && 0 <= i < |feed| && feed[i] == o.notified[k]
        && (forall j :: 0 <= j < i && feed[j].title == o.notified[k].title ==> !Contains(feed[j].ring, user, shapely))
    {
      assert ProbedAt(feed, o.probed, o.notified[k], user, shapely);
      var i :| 0 <= i < |feed| && i < |o.probed| && feed[i] == o.notified[k] && o.probed[i] && Contains(feed[i].ring, user, shapely);
      RunProbes(seen, feed, i, user, shapely);
    }
  }

  /** Containment is evaluated for an alert exactly when its title is not yet in
      `seen_alerts` when it comes up. */
  lemma {:induction false} RunProbesUnseen(seen: set<string>, feed: seq<Entry>, i: nat, user: Coord, shapely: Shapely)
    requires i < |feed|
    ensures Run(seen, feed, user, shapely).probed[i] == (feed[i].title !in Run(seen, feed[..i], user, shapely).seen)
    decreases |feed|
  {
    var init := feed[..|feed| - 1];
    if i < |init| {
      RunProbesUnseen(seen, init, i, user, shapely);
      assert init[..i] == feed[..i];
    }
  }

  /** Containment is evaluated for alert `i` exactly when its title was not seen before the
      cycle and no earlier alert with the same title contained the user. */
  lemma RunProbes(seen: set<string>, feed: seq<Entry>, i: nat, user: Coord, shapely: Shapely)
    requires i < |feed|
    ensures Run(seen, feed, user, shapely).probed[i] <==>
      && feed[i].title !in seen
      && forall j :: 0 <= j < i && feed[j].title == feed[i].title ==> !Contains(feed[j].ring, user, shapely)
  {
    RunProbesUnseen(seen, feed, i, user, shapely);
    RunSeen(seen, feed[..i], user, shapely);
    RunNotifiesMatching(seen, feed[..i], user, shapely);
    MatchingPrefix(seen, feed, i, feed[i].title, user, shapely);
  }

  /** A title is among those matching in the first `i` alerts exactly when it is unseen and
      one of those alerts carries it and contains the user. */
  lemma MatchingPrefix(seen: set<string>, feed: seq<Entry>, i: nat, t: string, user: Coord, shapely: Shapely)
    requires i <= |feed|
    ensures t in Matching(seen, feed[..i], user, shapely) <==>
      t !in seen && exists j :: 0 <= j < i && feed[j].title == t && Contains(feed[j].ring, user, shapely)
  {
    if t !in seen && exists j :: 0 <= j < i && feed[j].title == t && Contains(feed[j].ring, user, shapely) {
      var j :| 0 <= j < i && feed[j].title == t && Contains(feed[j].ring, user, shapely);
      MatchingHas(seen, feed[..i], j, user, shapely);
    }
    if t in Matching(seen, feed[..i], user, shapely) {
      MatchingWitness(seen, feed[..i], t, user, shapely);
      var j :| 0 <= j < i && feed[..i][j].title == t && Contains(feed[..i][j].ring, user, shapely);
      assert feed[..i][j] == feed[j];
    }
  }

  /** A matching title is carried by an alert of the feed whose area contains the user. */
  lemma MatchingWitness(seen: set<string>, feed: seq<Entry>, t: string, user: Coord, shapely: Shapely)
    requires t in Matching(seen, feed, user, shapely)
    ensures t !in seen
    ensures exists j :: 0 <= j < |feed| && feed[j].title == t && Contains(feed[j].ring, user, shapely)
  {
    var e :| e in feed && e.title == t && e.title !in seen && Contains(e.ring, user, shapely);
    var j :| 0 <= j < |feed| && feed[j] == e;
  }

  /** The title of an unseen alert of the feed whose area contains the user matches. */
  lemma MatchingHas(seen: set<string>, feed: seq<Entry>, j: nat, user: Coord, shapely: Shapely)
    requires j < |feed| && feed[j].title !in seen && Contains(feed[j].ring, user, shapely)
    ensures feed[j].title in Matching(seen, feed, user, shapely)
  {
    assert feed[j] in feed;
  }

  /** An alert whose title is already in `seen_alerts` is neither evaluated nor notified. */
  lemma SeenTitleSkipped(seen: set<string>, feed: seq<Entry>, i: nat, user: Coord, shapely: Shapely)
    requires i < |feed| && feed[i].title in seen
    ensures !Run(seen, feed, user, shapely).probed[i]
    ensures feed[i].title !in TitlesOf(Run(seen, feed, user, shapely).notified)
  {
    RunProbes(seen, feed, i, user, shapely);
    RunNotifiesFresh(seen, feed, user, shapely);
  }

  /** A second cycle over the same feed notifies nothing and leaves `seen_alerts` as it is. */
  lemma RunAgainQuiet(seen: set<string>, feed: seq<Entry>, user: Coord, shapely: Shapely)
    ensures var o := Run(seen, feed, user, shapely);
      && Run(o.seen, feed, user, shapely).notified == []
      && Run(o.seen, feed, user, shapely).seen == o.seen
  {
    var o := Run(seen, feed, user, shapely);
    var again := Run(o.seen, feed, user, shapely);
    RunSeen(seen, feed, user, shapely);
    RunNotifiesMatching(seen, feed, user, shapely);
    RunNotifiesMatching(o.seen, feed, user, shapely);
    RunSeen(o.seen, feed, user, shapely);
    assert Matching(o.seen, feed, user, shapely) == {};
    TitlesOfEmpty(again.notified);
  }

  /** Across two consecutive cycles no title is notified twice. */
  lemma CyclesNotifyDisjoint(seen: set<string>, feed1: seq<Entry>, feed2: seq<Entry>, user: Coord, shapely: Shapely)
    ensures var o1 := Run(seen, feed1, user, shapely);
      TitlesOf(o1.notified) !! TitlesOf(Run(o1.seen, feed2, user, shapely).notified)
  {
    var o1 := Run(seen, feed1, user, shapely);
    var o2 := Run(o1.seen, feed2, user, shapely);
    RunSeen(seen, feed1, user, shapely);
    RunNotifiesFresh(o1.seen, feed2, user, shapely);
    forall t | t in TitlesOf(o2.notified)
      ensures t !in TitlesOf(o1.notified)
    {
      var e :| e in o2.notified && e.title == t;
      var k :| 0 <= k < |o2.notified| && o2.notified[k] == e;
      assert t !in o1.seen;
      assert TitlesOf(o1.notified) <= o1.seen;
    }
  }

  /** The owner of the dedup state: `seen_alerts` and the notifications posted so far. */
  class Watcher {
    const topic: string
    const user: Coord
    var seen: set<string>
    var sent: seq<Notification>

    constructor (topic: string, user: Coord)
      ensures this.topic == topic && this.user == user
      ensures seen == {} && sent == []
    {
      this.topic := topic;
      this.user := user;
      seen := {};
      sent := [];
    }

    /** The body of `for alert in alerts` in `main`, for one alert: the title is looked up
        first and containment is evaluated only for an unseen title. */
    method Consider(alert: Alert, shapely: Shapely)
      modifies this, alert
      ensures var e := old(EntryOf(alert));
        && seen == Record(old(seen), e, user, shapely)
        && sent == old(sent) + (if Fires(old(seen), e, user, shapely) then [Notify(topic, e.title, e.summary)] else [])
        && alert.coords == if e.title !in old(seen) then AfterCheck(e.ring) else e.ring
    {
      if alert.title !in seen {
        var inside := IsWithinPolygon(alert, user, shapely);
        if inside {
          sent := sent + [Notify(topic, alert.title, alert.summary)];
          seen := seen + {alert.title};
        }
      }
    }

    /** The first `i` alerts of `feed`, a snapshot of `alerts` taken when the cycle started
        from `seen0` and `sent0`, have been handled and produced `done` and `probed`. */
    ghost predicate Handled(alerts: seq<Alert>, feed: seq<Entry>, seen0: set<string>, sent0: seq<Notification>,
                            i: nat, done: seq<Entry>, probed: seq<bool>, shapely: Shapely)
      reads this, alerts
    {
      && i <= |alerts| == |feed|
      && Run(seen0, feed[..i], user, shapely) == CycleResult(seen, done, probed)
      && sent == sent0 + Notices(topic, done)
      && forall j :: 0 <= j < |alerts| ==> alerts[j].coords == Rings(feed, probed)[j]
    }

    /** One turn of the loop in `PollCycle`: alert `i` is handled. */
    method Advance(alerts: seq<Alert>, i: nat, shapely: Shapely, ghost feed: seq<Entry>, ghost seen0: set<string>,
                   ghost sent0: seq<Notification>, ghost done: seq<Entry>, ghost probed: seq<bool>)
      returns (ghost done': seq<Entry>, ghost probed': seq<bool>)
      requires forall i, j :: 0 <= i < j < |alerts| ==> alerts[i] != alerts[j]
      requires i < |alerts| && Handled(alerts, feed, seen0, sent0, i, done, probed, shapely)
      requires forall j :: 0 <= j < |alerts| ==> feed[j].title == alerts[j].title && feed[j].summary == alerts[j].summary
      modifies this, alerts[i]
      ensures Handled(alerts, feed, seen0, sent0, i + 1, done', probed', shapely)
    {
      ghost var e := feed[i];
      assert EntryOf(alerts[i]) == e;
      RunSnoc(seen0, feed, i, user, shapely);
      ghost var step := if Fires(seen, e, user, shapely) then [e] else [];
      NoticesAppend(topic, done, step);
      NoticesOne(topic, e);
      RingsStep(feed, probed, e.title !in seen);
      done' := done + step;
      probed' := probed + [e.title !in seen];
      Consider(alerts[i], shapely);
    }

    /** One pass of `for alert in alerts` in `main`. */
    method PollCycle(alerts: seq<Alert>, shapely: Shapely)
      requires forall i, j :: 0 <= i < j < |alerts| ==> alerts[i] != alerts[j]
      modifies this, alerts
      ensures seen == Run(old(seen), old(Snapshot(alerts)), user, shapely).seen
      ensures sent == old(sent) + Notices(topic, Run(old(seen), old(Snapshot(alerts)), user, shapely).notified)
      ensures forall i :: 0 <= i < |alerts| ==>
        alerts[i].coords == if Run(old(seen), old(Snapshot(alerts)), user, shapely).probed[i]
                            then AfterCheck(old(alerts[i].coords)) else old(alerts[i].coords)
    {
      ghost var feed := Snapshot(alerts);
      ghost var done: seq<Entry> := [];
      ghost var probed: seq<bool> := [];
      var i := 0;
      while i < |alerts|
        invariant Handled(alerts, feed, old(seen), old(sent), i, done, probed, shapely)
      {
        done, probed := Advance(alerts, i, shapely, feed, old(seen), old(sent), done, probed);
        i := i + 1;
      }
      assert feed[..i] == feed;
      ghost var o := Run(old(seen), feed, user, shapely);
      forall j | 0 <= j < |alerts|
        ensures alerts[j].coords == if o.probed[j] then AfterCheck(old(alerts[j].coords)) else old(alerts[j].coords)
      {
        assert feed[j].ring == old(alerts[j].coords);
        assert alerts[j].coords == Rings(feed, probed)[j];
      }
    }
  }
}
