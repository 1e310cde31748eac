/**
 * One check of one monitored video (main.py): every top-level comment, its
 * embedded replies and, when the platform reports more replies than it
 * embedded, every page of hidden replies are each processed once; a reply
 * whose rpid has not been seen is recorded in memory and in the database and
 * becomes a notification record.
 *
 * The pure part states what a check computes: a run over the sequence of
 * visited replies (`Visits`), with a closed form and its consequences. The
 * class `VideoTarget` is the mutable `{"title", "seen_ids"}` entry the
 * monitor keeps per video, and its methods are proved against that run.
 */
module Monitor {
  import opened Basics
  import opened Api
  import opened Database
  import opened Sorting
  import Fetch
  import Notifier

  /** The label of a top-level comment. */
  const TopLevelLabel := "主评论"
  /** The label of a reply starts with this, followed by the replied-to user. */
  const ReplyPrefix := "回复@"

  /** Python truthiness of `parent_user_name`: neither None nor the empty string. */
  predicate Truthy(parent: Option<string>) {
    parent.Some? && parent.value != ""
  }

  /** `next((item['uname'] for item in at_details if item['mid'] == parent_str), fallback)`. */
  function AtName(ats: seq<AtDetail>, parentStr: string, fallback: string): (r: string)
    ensures (forall i | 0 <= i < |ats| :: ats[i].mid != parentStr) ==> r == fallback
    ensures forall i | 0 <= i < |ats| && ats[i].mid == parentStr ::
              (forall j | 0 <= j < i :: ats[j].mid != parentStr) ==> r == ats[i].uname
  {
    if ats == [] then fallback
    else if ats[0].mid == parentStr then ats[0].uname
    else
      var r := AtName(ats[1..], parentStr, fallback);
      assert forall i | 1 <= i < |ats| :: ats[i] == ats[1..][i - 1];
      r
  }

  /** The `type` field of a record. */
  function TypeLabel(reply: Reply, parent: Option<string>): string {
    if !Truthy(parent) then TopLevelLabel
    else if reply.atDetails != [] then ReplyPrefix + AtName(reply.atDetails, reply.parentStr, parent.value)
    else ReplyPrefix + parent.value
  }

  /**
   * A reply is labelled top-level exactly when there is no (truthy) parent
   * name; otherwise it names the first `at_details` user whose mid equals
   * `parent_str`, and the parent's name when there is none.
   */
  lemma TypeLabelKinds(reply: Reply, parent: Option<string>)
    ensures TypeLabel(reply, parent) == TopLevelLabel <==> !Truthy(parent)
    ensures (Truthy(parent) && forall i | 0 <= i < |reply.atDetails| :: reply.atDetails[i].mid != reply.parentStr)
            ==> TypeLabel(reply, parent) == ReplyPrefix + parent.value
    ensures Truthy(parent) ==>
              forall i | 0 <= i < |reply.atDetails| && reply.atDetails[i].mid == reply.parentStr ::
                (forall j | 0 <= j < i :: reply.atDetails[j].mid != reply.parentStr)
                  ==> TypeLabel(reply, parent) == ReplyPrefix + reply.atDetails[i].uname
  {
    var kind := TypeLabel(reply, parent);
    if Truthy(parent) {
      assert kind[0] == '回';
      assert TopLevelLabel[0] == '主';
    }
  }

  /** The dictionary `process_and_notify_comment` returns for a new reply. */
  function MakeRecord(reply: Reply, parent: Option<string>): (r: Record)
    ensures r.user == reply.uname && r.message == reply.message && r.time == reply.ctime
    ensures r.kind == TopLevelLabel <==> !Truthy(parent)
  {
    TypeLabelKinds(reply, parent);
    Record(reply.uname, reply.message, reply.ctime, TypeLabel(reply, parent))
  }

  /** One call of `process_and_notify_comment`: a reply and the parent name it is passed. */
  datatype Visit = Visit(reply: Reply, parent: Option<string>)

  /** The state a check threads through its calls: the seen rpids and the records found so far. */
  datatype Scan = Scan(seen: set<Rpid>, found: seq<Record>)

  /** One call: an unseen rpid is added and yields a record; a seen one changes nothing. */
  function ProcessOne(sc: Scan, v: Visit): Scan {
    if v.reply.rpidStr in sc.seen then sc
    else Scan(sc.seen + {v.reply.rpidStr}, sc.found + [MakeRecord(v.reply, v.parent)])
  }

  /** The calls in order. */
  function Run(sc: Scan, vs: seq<Visit>): Scan {
    if vs == [] then sc else ProcessOne(Run(sc, vs[..|vs| - 1]), vs[|vs| - 1])
  }

  /** The rpids of some visits. */
  function RpidsOf(vs: seq<Visit>): set<Rpid> {
    set v | v in vs :: v.reply.rpidStr
  }

  /** The visits whose rpid is neither in `seen` nor met earlier in `vs`, in order. */
  function FirstSeen(seen: set<Rpid>, vs: seq<Visit>): seq<Visit> {
    if vs == [] then []
    else
      var init := vs[..|vs| - 1];
      var v := vs[|vs| - 1];
      if v.reply.rpidStr in seen + RpidsOf(init) then FirstSeen(seen, init) else FirstSeen(seen, init) + [v]
  }

  /** The records of some visits. */
  function Records(vs: seq<Visit>): (rs: seq<Record>)
    ensures |rs| == |vs|
    ensures forall i | 0 <= i < |vs| :: rs[i] == MakeRecord(vs[i].reply, vs[i].parent)
  {
    seq(|vs|, i requires 0 <= i < |vs| => MakeRecord(vs[i].reply, vs[i].parent))
  }

  lemma RpidsOfSnoc(vs: seq<Visit>, v: Visit)
    ensures RpidsOf(vs + [v]) == RpidsOf(vs) + {v.reply.rpidStr}
  {
    assert forall w | w in vs + [v] :: w in vs || w == v;
  }

  /**
   * What a run computes: every visited rpid is seen afterwards, and exactly
   * the first visit of each rpid not seen before yields a record, in visiting order.
   */
  lemma {:induction false} RunClosedForm(sc: Scan, vs: seq<Visit>)
    ensures Run(sc, vs) == Scan(sc.seen + RpidsOf(vs), sc.found + Records(FirstSeen(sc.seen, vs)))
    decreases |vs|, 1
  {
    if vs == [] {
      assert Records([]) == [];
    } else {
      assert vs == vs[..|vs| - 1] + [vs[|vs| - 1]];
      RunClosedFormSnoc(sc, vs[..|vs| - 1], vs[|vs| - 1]);
    }
  }

  /** The step of `RunClosedForm`: one more visit after `init`. */
  lemma {:induction false} RunClosedFormSnoc(sc: Scan, init: seq<Visit>, v: Visit)
    ensures Run(sc, init + [v]) == Scan(sc.seen + RpidsOf(init + [v]), sc.found + Records(FirstSeen(sc.seen, init + [v])))
    decreases |init| + 1, 0
  {
    var vs := init + [v];
    assert vs[..|vs| - 1] == init;
    assert vs[|vs| - 1] == v;
    RunClosedForm(sc, init);
    RpidsOfSnoc(init, v);
    var fs := FirstSeen(sc.seen, init);
    if v.reply.rpidStr !in sc.seen + RpidsOf(init) {
      assert Records(fs + [v]) == Records(fs) + [MakeRecord(v.reply, v.parent)];
    }
  }

  /**
   * The visits that yield records are visits of `vs` with unseen rpids, no
   * rpid twice, and together they cover every new rpid.
   */
  lemma {:induction false} FirstSeenFresh(seen: set<Rpid>, vs: seq<Visit>)
    ensures forall v | v in FirstSeen(seen, vs) :: v in vs && v.reply.rpidStr !in seen
    ensures RpidsOf(FirstSeen(seen, vs)) == RpidsOf(vs) - seen
    ensures forall i, j | 0 <= i < j < |FirstSeen(seen, vs)| ::
              FirstSeen(seen, vs)[i].reply.rpidStr != FirstSeen(seen, vs)[j].reply.rpidStr
    decreases |vs|, 1
  {
    if vs != [] {
      assert vs == vs[..|vs| - 1] + [vs[|vs| - 1]];
      FirstSeenFreshSnoc(seen, vs[..|vs| - 1], vs[|vs| - 1]);
    }
  }

  /** The step of `FirstSeenFresh`: one more visit after `init`. */
  lemma {:induction false} FirstSeenFreshSnoc(seen: set<Rpid>, init: seq<Visit>, v: Visit)
    ensures forall w | w in FirstSeen(seen, init + [v]) :: w in init + [v] && w.reply.rpidStr !in seen
    ensures RpidsOf(FirstSeen(seen, init + [v])) == RpidsOf(init + [v]) - seen
    ensures forall i, j | 0 <= i < j < |FirstSeen(seen, init + [v])| ::
              FirstSeen(seen, init + [v])[i].reply.rpidStr != FirstSeen(seen, init + [v])[j].reply.rpidStr
    decreases |init| + 1, 0
  {
    var vs := init + [v];
    assert vs[..|vs| - 1] == init;
    assert vs[|vs| - 1] == v;
    FirstSeenFresh(seen, init);
    RpidsOfSnoc(init, v);
    var fs := FirstSeen(seen, init);
    if v.reply.rpidStr !in seen + RpidsOf(init) {
      RpidsOfSnoc(fs, v);
      forall i | 0 <= i < |fs| ensures fs[i].reply.rpidStr != v.reply.rpidStr {
        assert fs[i] in fs;
      }
    }
  }

  /** Distinct rpids: as many as there are visits. */
  lemma {:induction false} RpidsOfDistinct(vs: seq<Visit>)
    requires forall i, j | 0 <= i < j < |vs| :: vs[i].reply.rpidStr != vs[j].reply.rpidStr
    ensures |RpidsOf(vs)| == |vs|
  {
    if vs == [] {
      assert RpidsOf(vs) == {};
    } else {
      var init := vs[..|vs| - 1];
      var v := vs[|vs| - 1];
      assert vs == init + [v];
      RpidsOfDistinct(init);
      RpidsOfSnoc(init, v);
      forall i | 0 <= i < |init| ensures init[i].reply.rpidStr != v.reply.rpidStr {
        assert init[i] == vs[i];
      }
    }
  }

  /** Visits without rpids: none. */
  lemma RpidsOfEmpty(vs: seq<Visit>)
    ensures RpidsOf(vs) == {} <==> vs == []
  {
    if vs != [] {
      assert vs[0].reply.rpidStr in RpidsOf(vs);
    }
  }

  /** A run yields exactly one record per rpid it adds to the seen set. */
  lemma OneRecordPerNewRpid(sc: Scan, vs: seq<Visit>)
    ensures sc.seen <= Run(sc, vs).seen
    ensures |Run(sc, vs).found| == |sc.found| + |Run(sc, vs).seen - sc.seen|
  {
    RunClosedForm(sc, vs);
    FirstSeenFresh(sc.seen, vs);
    var fs := FirstSeen(sc.seen, vs);
    RpidsOfDistinct(fs);
    assert (sc.seen + RpidsOf(vs)) - sc.seen == RpidsOf(vs) - sc.seen;
  }

  /** Running the same visits again finds nothing: every rpid is seen by then. */
  lemma RunAgainFindsNothing(sc: Scan, vs: seq<Visit>)
    ensures Run(Run(sc, vs), vs) == Run(sc, vs)
  {
    var once := Run(sc, vs);
    RunClosedForm(sc, vs);
    RunClosedForm(once, vs);
    FirstSeenFresh(once.seen, vs);
    var fs := FirstSeen(once.seen, vs);
    assert RpidsOf(fs) == {};
    RpidsOfEmpty(fs);
    assert Records(fs) == [];
  }

  /** Runs compose: the calls of `a` then those of `b`. */
  lemma {:induction false} RunAppend(sc: Scan, a: seq<Visit>, b: seq<Visit>)
    ensures Run(sc, a + b) == Run(Run(sc, a), b)
  {
    if b == [] {
      assert a + b == a;
    } else {
      var init := b[..|b| - 1];
      RunAppend(sc, a, init);
      assert (a + b)[..|a + b| - 1] == a + init;
    }
  }

  /** The same parent name for every reply of a list. */
  function Tag(rs: seq<Reply>, parent: Option<string>): (vs: seq<Visit>)
    ensures |vs| == |rs|
    ensures forall i | 0 <= i < |rs| :: vs[i] == Visit(rs[i], parent)
  {
    seq(|rs|, i requires 0 <= i < |rs| => Visit(rs[i], parent))
  }

  /**
   * The calls one top-level comment causes: itself without a parent, its
   * embedded replies, then, only when `rcount` exceeds the embedded count,
   * the hidden replies fetched page by page from `pages` (the responses the
   * sub-reply endpoint gives for this root).
   */
  function CommentVisits(c: Comment, pages: Rpid -> seq<PageResponse>): seq<Visit> {
    var parent := Some(c.reply.uname);
    [Visit(c.reply, None)]
    + Tag(Embedded(c), parent)
    + (if RCount(c) > |Embedded(c)| then Tag(Fetch.SubReplies(pages(c.reply.rpidStr)), parent) else [])
  }

  /** The calls of a whole check, comment after comment. */
  function Visits(cs: seq<Comment>, pages: Rpid -> seq<PageResponse>): seq<Visit> {
    if cs == [] then [] else Visits(cs[..|cs| - 1], pages) + CommentVisits(cs[|cs| - 1], pages)
  }

  /** A check of one video starting from the ids already seen for it. */
  function Tick(seen: set<Rpid>, cs: seq<Comment>, pages: Rpid -> seq<PageResponse>): Scan {
    Run(Scan(seen, []), Visits(cs, pages))
  }

  lemma {:induction false} VisitsContain(cs: seq<Comment>, pages: Rpid -> seq<PageResponse>, k: nat)
    requires k < |cs|
    ensures forall v | v in CommentVisits(cs[k], pages) :: v in Visits(cs, pages)
  {
    var init := cs[..|cs| - 1];
    if k < |cs| - 1 {
      VisitsContain(init, pages, k);
      assert init[k] == cs[k];
    }
  }

  /**
   * After a check the seen set is the old one plus every rpid visited: each
   * top-level comment, each embedded reply and, when `rcount` exceeds the
   * embedded count, each reply on the pages before the one that stops the
   * fetch. Nothing else is added.
   */
  lemma TickSeen(seen: set<Rpid>, cs: seq<Comment>, pages: Rpid -> seq<PageResponse>)
    ensures Tick(seen, cs, pages).seen == seen + RpidsOf(Visits(cs, pages))
    ensures forall k | 0 <= k < |cs| :: cs[k].reply.rpidStr in Tick(seen, cs, pages).seen
    ensures forall k, r | 0 <= k < |cs| && r in Embedded(cs[k]) :: r.rpidStr in Tick(seen, cs, pages).seen
    ensures forall k, r | 0 <= k < |cs| && RCount(cs[k]) > |Embedded(cs[k])|
              && r in Fetch.SubReplies(pages(cs[k].reply.rpidStr)) :: r.rpidStr in Tick(seen, cs, pages).seen
  {
    var after := Tick(seen, cs, pages);
    RunClosedForm(Scan(seen, []), Visits(cs, pages));
    forall k | 0 <= k < |cs| ensures RpidsOf(CommentVisits(cs[k], pages)) <= after.seen {
      VisitsContain(cs, pages, k);
    }
    forall k | 0 <= k < |cs| ensures cs[k].reply.rpidStr in after.seen {
      assert Visit(cs[k].reply, None) in CommentVisits(cs[k], pages);
    }
    forall k, r | 0 <= k < |cs| && r in Embedded(cs[k]) ensures r.rpidStr in after.seen {
      var parent := Some(cs[k].reply.uname);
      var i :| 0 <= i < |Embedded(cs[k])| && Embedded(cs[k])[i] == r;
      assert Tag(Embedded(cs[k]), parent)[i] == Visit(r, parent);
      assert Visit(r, parent) in CommentVisits(cs[k], pages);
    }
    forall k, r | 0 <= k < |cs| && RCount(cs[k]) > |Embedded(cs[k])| && r in Fetch.SubReplies(pages(cs[k].reply.rpidStr))
      ensures r.rpidStr in after.seen
    {
      var parent := Some(cs[k].reply.uname);
      var subs := Fetch.SubReplies(pages(cs[k].reply.rpidStr));
      var i :| 0 <= i < |subs| && subs[i] == r;
      assert Tag(subs, parent)[i] == Visit(r, parent);
      assert Visit(r, parent) in CommentVisits(cs[k], pages);
    }
  }

  /**
   * The records a check finds: one per rpid it adds, each built from a
   * visited reply whose rpid was not seen before.
   */
  lemma TickFound(seen: set<Rpid>, cs: seq<Comment>, pages: Rpid -> seq<PageResponse>)
    ensures forall rec | rec in Tick(seen, cs, pages).found ::
              exists v | v in Visits(cs, pages) :: v.reply.rpidStr !in seen && rec == MakeRecord(v.reply, v.parent)
    ensures |Tick(seen, cs, pages).found| == |RpidsOf(Visits(cs, pages)) - seen|
  {
    var vs := Visits(cs, pages);
    var sc := Scan(seen, []);
    RunClosedForm(sc, vs);
    FirstSeenFresh(seen, vs);
    OneRecordPerNewRpid(sc, vs);
    var fs := FirstSeen(seen, vs);
    assert Tick(seen, cs, pages).found == Records(fs);
    forall rec | rec in Records(fs)
      ensures exists v | v in vs :: v.reply.rpidStr !in seen && rec == MakeRecord(v.reply, v.parent)
    {
      var i :| 0 <= i < |fs| && Records(fs)[i] == rec;
      assert fs[i] in fs;
    }
    assert (seen + RpidsOf(vs)) - seen == RpidsOf(vs) - seen;
  }

  /** A second check of the same comments and pages finds nothing and adds no rpid. */
  lemma TickAgainFindsNothing(seen: set<Rpid>, cs: seq<Comment>, pages: Rpid -> seq<PageResponse>)
    ensures var after := Tick(seen, cs, pages).seen;
            Tick(after, cs, pages).found == [] && Tick(after, cs, pages).seen == after
  {
    var vs := Visits(cs, pages);
    var after := Tick(seen, cs, pages).seen;
    RunClosedForm(Scan(seen, []), vs);
    RunClosedForm(Scan(after, []), vs);
    FirstSeenFresh(after, vs);
    var fs := FirstSeen(after, vs);
    assert RpidsOf(fs) == {};
    RpidsOfEmpty(fs);
    assert Records(fs) == [];
  }

  /**
   * The seen set kept in memory is what a restart would load back: when the
   * set was loaded from the table and no other video owns a visited rpid,
   * recording the new rpids under this oid and loading again gives the
   * in-memory set after the run.
   */
  lemma RestartLoadsSameIds(db: map<Rpid, Oid>, oid: Oid, vs: seq<Visit>)
    requires forall r | r in RpidsOf(vs) && r in db :: db[r] == oid
    ensures var after := Run(Scan(SeenFor(db, oid), []), vs);
            SeenFor(RecordAll(db, after.seen - SeenFor(db, oid), oid), oid) == after.seen
  {
    var seen := SeenFor(db, oid);
    var after := Run(Scan(seen, []), vs);
    RunClosedForm(Scan(seen, []), vs);
    var added := after.seen - seen;
    LoadAfterRecordAll(db, added, oid);
    assert added - db.Keys == added;
  }

  /** Recording one rpid more, unless it was already seen, keeps the table equal to the recorded difference. */
  lemma RecordStep(db0: map<Rpid, Oid>, seen0: set<Rpid>, seen: set<Rpid>, rpid: Rpid, oid: Oid)
    requires seen0 <= seen && rpid !in seen
    ensures InsertOrIgnore(RecordAll(db0, seen - seen0, oid), rpid, oid) == RecordAll(db0, (seen + {rpid}) - seen0, oid)
  {
    RecordAllInsert(db0, seen - seen0, rpid, oid);
    assert (seen + {rpid}) - seen0 == (seen - seen0) + {rpid};
  }

  /** Recording two differences in turn records their union. */
  lemma RecordTwice(db0: map<Rpid, Oid>, s0: set<Rpid>, s1: set<Rpid>, s2: set<Rpid>, oid: Oid)
    requires s0 <= s1 <= s2
    ensures RecordAll(RecordAll(db0, s1 - s0, oid), s2 - s1, oid) == RecordAll(db0, s2 - s0, oid)
  {
    assert (s1 - s0) + (s2 - s1) == s2 - s0;
  }

  /** The in-memory entry for one monitored video. */
  class VideoTarget {
    const oid: Oid
    const title: string
    /** `seen_ids`: the rpids already processed for this video. */
    var seenIds: set<Rpid>

    /** Start-up: the title and the ids loaded from the table for this oid. */
    constructor(oid: Oid, title: string, db: Store)
      requires db.schemaReady
      ensures this.oid == oid && this.title == title
      ensures seenIds == SeenFor(db.seenComments, oid)
    {
      var ids := db.LoadSeenComments(oid);
      this.oid := oid;
      this.title := title;
      seenIds := ids;
    }

    /**
     * `process_and_notify_comment`: an unseen rpid is added to the seen set,
     * inserted (or ignored) in the table, and returned as a record.
     */
    method ProcessComment(reply: Reply, parent: Option<string>, db: Store) returns (rec: Option<Record>)
      requires db.schemaReady
      modifies this`seenIds, db`seenComments
      ensures rec.Some? <==> reply.rpidStr !in old(seenIds)
      ensures rec.Some? ==> rec.value == MakeRecord(reply, parent)
      ensures seenIds == old(seenIds) + {reply.rpidStr}
      ensures db.seenComments
              == if rec.Some? then InsertOrIgnore(old(db.seenComments), reply.rpidStr, oid) else old(db.seenComments)
    {
      var rpid := reply.rpidStr;
      if rpid !in seenIds {
        seenIds := seenIds + {rpid};
        db.AddComment(rpid, oid);
        return Some(Record(reply.uname, reply.message, reply.ctime, TypeLabel(reply, parent)));
      }
      return None;
    }

    /** The loop over a list of replies sharing a parent name, appending each new record to `acc`. */
    method ProcessReplies(replies: seq<Reply>, parent: Option<string>, db: Store, acc: seq<Record>)
      returns (found: seq<Record>)
      requires db.schemaReady
      modifies this`seenIds, db`seenComments
      ensures Scan(seenIds, found) == Run(Scan(old(seenIds), acc), Tag(replies, parent))
      ensures old(seenIds) <= seenIds
      ensures db.seenComments == RecordAll(old(db.seenComments), seenIds - old(seenIds), oid)
    {
      var visits := Tag(replies, parent);
      found := acc;
      assert RecordAll(db.seenComments, seenIds - seenIds, oid) == db.seenComments;
      for k := 0 to |replies|
        invariant Scan(seenIds, found) == Run(Scan(old(seenIds), acc), visits[..k])
        invariant old(seenIds) <= seenIds
        invariant db.seenComments == RecordAll(old(db.seenComments), seenIds - old(seenIds), oid)
        invariant db.schemaReady
      {
        assert visits[..k + 1][..k] == visits[..k];
        ghost var before := seenIds;
        var rec := ProcessComment(replies[k], parent, db);
        if rec.Some? {
          found := found + [rec.value];
          RecordStep(old(db.seenComments), old(seenIds), before, replies[k].rpidStr, oid);
        }
      }
      assert visits[..|replies|] == visits;
    }

    /**
     * One video's share of a monitoring round: every comment of the latest
     * page is processed as `Tick` describes, the records are sorted by time
     * and, when there are any and webhooks are enabled, sent.
     */
    method CheckVideo(latest: seq<Comment>, pages: Rpid -> seq<PageResponse>, db: Store,
                      webhookEnabled: bool, config: Option<string>, formatTime: int -> string)
      returns (sorted: seq<Record>, delivery: Option<Notifier.Delivery>)
      requires db.schemaReady
      modifies this`seenIds, db`seenComments
      ensures seenIds == Tick(old(seenIds), latest, pages).seen
      ensures sorted == SortByTime(Tick(old(seenIds), latest, pages).found)
      ensures db.seenComments == RecordAll(old(db.seenComments), seenIds - old(seenIds), oid)
      ensures delivery.Some? <==> webhookEnabled && sorted != [] && Notifier.CheckWebhookConfigured(config)
      ensures delivery.Some? ==> delivery.value.content
                                 == Notifier.Header(title, |sorted|) + "\n" + Notifier.Separator + Notifier.Body(sorted, formatTime)
    {
      var found: seq<Record> := [];
      assert RecordAll(db.seenComments, seenIds - seenIds, oid) == db.seenComments;
      for k := 0 to |latest|
        invariant Scan(seenIds, found) == Run(Scan(old(seenIds), []), Visits(latest[..k], pages))
        invariant old(seenIds) <= seenIds
        invariant db.seenComments == RecordAll(old(db.seenComments), seenIds - old(seenIds), oid)
        invariant db.schemaReady
      {
        var comment := latest[k];
        assert latest[..k + 1][..k] == latest[..k];
        ghost var start := Scan(seenIds, found);
        ghost var s0 := seenIds;
        var parent := Some(comment.reply.uname);
        var rec := ProcessComment(comment.reply, None, db);
        if rec.Some? {
          found := found + [rec.value];
          RecordStep(old(db.seenComments), old(seenIds), s0, comment.reply.rpidStr, oid);
        }
        assert Scan(seenIds, found) == Run(start, [Visit(comment.reply, None)]);
        ghost var s1 := seenIds;
        found := ProcessReplies(Embedded(comment), parent, db, found);
        RecordTwice(old(db.seenComments), old(seenIds), s1, seenIds, oid);
        RunAppend(start, [Visit(comment.reply, None)], Tag(Embedded(comment), parent));
        assert Scan(seenIds, found) == Run(start, [Visit(comment.reply, None)] + Tag(Embedded(comment), parent));
        var rcount := RCount(comment);
        var initialReplyCount := |Embedded(comment)|;
        if rcount > initialReplyCount {
          var allSubReplies, _ := Fetch.FetchAllSubReplies(pages(comment.reply.rpidStr));
          ghost var s2 := seenIds;
          found := ProcessReplies(allSubReplies, parent, db, found);
          RecordTwice(old(db.seenComments), old(seenIds), s2, seenIds, oid);
          RunAppend(start, [Visit(comment.reply, None)] + Tag(Embedded(comment), parent), Tag(allSubReplies, parent));
          assert CommentVisits(comment, pages) == [Visit(comment.reply, None)] + Tag(Embedded(comment), parent) + Tag(allSubReplies, parent);
          assert Scan(seenIds, found) == Run(start, CommentVisits(comment, pages));
        } else {
          ghost var head := [Visit(comment.reply, None)] + Tag(Embedded(comment), parent);
          assert head + [] == head;
          assert CommentVisits(comment, pages) == head;
          assert Scan(seenIds, found) == Run(start, CommentVisits(comment, pages));
        }
        assert Scan(seenIds, found) == Run(start, CommentVisits(comment, pages));
        RunAppend(Scan(old(seenIds), []), Visits(latest[..k], pages), CommentVisits(comment, pages));
        assert Visits(latest[..k + 1], pages) == Visits(latest[..k], pages) + CommentVisits(comment, pages);
      }
      assert latest[..|latest|] == latest;
      sorted := SortByTime(found);
      assert |sorted| == |multiset(sorted)| == |multiset(found)| == |found|;
      delivery := None;
      if found != [] && webhookEnabled {
        delivery := Notifier.SendWebhookNotification(config, title, sorted, formatTime);
      }
    }
  }
}
