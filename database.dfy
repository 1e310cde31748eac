/**
 * The SQLite persistence layer (database.py) as two in-memory tables:
 * `videos` (oid PRIMARY KEY, bv_id UNIQUE, title) and `seen_comments`
 * (rpid PRIMARY KEY, oid).
 */
module Database {
  import opened Basics

  /** One row of `videos`, as `get_monitored_videos` returns it. */
  datatype VideoRow = VideoRow(oid: Oid, bvId: BvId, title: string)

  /** The PRIMARY KEY on `oid` and the UNIQUE constraint on `bv_id`. */
  predicate UniqueKeys(rows: seq<VideoRow>) {
    forall i, j | 0 <= i < j < |rows| :: rows[i].oid != rows[j].oid && rows[i].bvId != rows[j].bvId
  }

  predicate HasOid(rows: seq<VideoRow>, oid: Oid) {
    exists i | 0 <= i < |rows| :: rows[i].oid == oid
  }

  predicate HasBvId(rows: seq<VideoRow>, bv: BvId) {
    exists i | 0 <= i < |rows| :: rows[i].bvId == bv
  }

  /** `INSERT INTO videos`: fails (an IntegrityError) when either key is taken. */
  function InsertVideo(rows: seq<VideoRow>, row: VideoRow): (r: Option<seq<VideoRow>>)
    ensures r.None? <==> HasOid(rows, row.oid) || HasBvId(rows, row.bvId)
    ensures r.Some? ==> r.value == rows + [row]
    ensures r.Some? && UniqueKeys(rows) ==> UniqueKeys(r.value)
  {
    if HasOid(rows, row.oid) || HasBvId(rows, row.bvId) then None else Some(rows + [row])
  }

  /** `DELETE FROM videos WHERE oid = ?`: the remaining rows, in their order. */
  function DeleteVideo(rows: seq<VideoRow>, oid: Oid): (r: seq<VideoRow>)
    ensures !HasOid(r, oid)
    ensures forall x | x in r :: x in rows && x.oid != oid
    ensures forall i | 0 <= i < |rows| && rows[i].oid != oid :: rows[i] in r
    ensures !HasOid(rows, oid) ==> r == rows
  {
    if rows == [] then []
    else
      var rest := DeleteVideo(rows[1..], oid);
      assert HasOid(rows, oid) && rows[0].oid != oid ==> HasOid(rows[1..], oid);
      if rows[0].oid == oid then rest else [rows[0]] + rest
  }

  /** Deleting keeps both keys unique and, when the oid was present, removes exactly one row. */
  lemma {:induction false} DeleteVideoKeepsKeys(rows: seq<VideoRow>, oid: Oid)
    requires UniqueKeys(rows)
    ensures UniqueKeys(DeleteVideo(rows, oid))
    ensures |DeleteVideo(rows, oid)| == if HasOid(rows, oid) then |rows| - 1 else |rows|
  {
    if rows != [] {
      var rest := DeleteVideo(rows[1..], oid);
      UniqueKeysSplit(rows);
      DeleteVideoKeepsKeys(rows[1..], oid);
      if rows[0].oid == oid {
        assert !HasOid(rows[1..], oid);
      } else {
        assert HasOid(rows, oid) <==> HasOid(rows[1..], oid);
        UniqueKeysCons(rows[0], rest);
      }
    }
  }

  /**
   * With unique keys, deleting the oid of the row at position `p` removes
   * exactly that row: the rows before and after it stay, in their order.
   */
  lemma {:induction false} DeleteVideoKeepsOrder(rows: seq<VideoRow>, oid: Oid, p: nat)
    requires UniqueKeys(rows)
    requires p < |rows| && rows[p].oid == oid
    ensures DeleteVideo(rows, oid) == rows[..p] + rows[p + 1..]
  {
    if p == 0 {
      assert !HasOid(rows[1..], oid) by {
        UniqueKeysSplit(rows);
      }
      DeleteFirstRow(rows, oid);
    } else {
      var tail := rows[1..];
      assert UniqueKeys(tail) by {
        UniqueKeysSplit(rows);
      }
      assert rows[0].oid != oid;
      assert tail[p - 1] == rows[p];
      DeleteVideoKeepsOrder(tail, oid, p - 1);
      DeleteLaterRow(rows, oid, tail[..p - 1] + tail[p..]);
      ConsSlices(rows, p);
    }
  }

  /** Putting the first element back in front of the tail without its element `p - 1`. */
  lemma ConsSlices<T>(xs: seq<T>, p: nat)
    requires 0 < p < |xs|
    ensures [xs[0]] + (xs[1..][..p - 1] + xs[1..][p..]) == xs[..p] + xs[p + 1..]
  {
    assert xs[..p] == [xs[0]] + xs[1..][..p - 1];
    assert xs[p + 1..] == xs[1..][p..];
  }

  /** Deleting the oid of the first row of a table with unique keys leaves the other rows. */
  lemma DeleteFirstRow(rows: seq<VideoRow>, oid: Oid)
    requires rows != [] && rows[0].oid == oid
    requires !HasOid(rows[1..], oid)
    ensures DeleteVideo(rows, oid) == rows[..0] + rows[1..]
  {
    assert rows[..0] + rows[1..] == rows[1..];
  }

  /** Deleting an oid that is not the first row's keeps the first row in front. */
  lemma DeleteLaterRow(rows: seq<VideoRow>, oid: Oid, rest: seq<VideoRow>)
    requires rows != [] && rows[0].oid != oid
    requires DeleteVideo(rows[1..], oid) == rest
    ensures DeleteVideo(rows, oid) == [rows[0]] + rest
  {
  }

  /** A table with unique keys is its first row before a table with unique keys that shares neither key with it. */
  lemma UniqueKeysSplit(rows: seq<VideoRow>)
    requires rows != [] && UniqueKeys(rows)
    ensures UniqueKeys(rows[1..])
    ensures forall x | x in rows[1..] :: x.oid != rows[0].oid && x.bvId != rows[0].bvId
  {
    forall x | x in rows[1..] ensures x.oid != rows[0].oid && x.bvId != rows[0].bvId {
      var j :| 0 <= j < |rows[1..]| && rows[1..][j] == x;
      assert rows[j + 1] == x;
    }
  }

  /** A row sharing neither key with a table that has unique keys can go in front of it. */
  lemma UniqueKeysCons(x: VideoRow, rest: seq<VideoRow>)
    requires UniqueKeys(rest)
    requires forall y | y in rest :: y.oid != x.oid && y.bvId != x.bvId
    ensures UniqueKeys([x] + rest)
  {
    var r := [x] + rest;
    forall i, j | 0 <= i < j < |r| ensures r[i].oid != r[j].oid && r[i].bvId != r[j].bvId {
      assert r[j] == rest[j - 1];
      if i > 0 {
        assert r[i] == rest[i - 1];
      }
    }
  }

  /** `videos ORDER BY added_at DESC`: the insertion order reversed. */
  function NewestFirst(rows: seq<VideoRow>): (r: seq<VideoRow>)
    ensures |r| == |rows|
    ensures forall i | 0 <= i < |r| :: r[i] == rows[|rows| - 1 - i]
  {
    if rows == [] then [] else [rows[|rows| - 1]] + NewestFirst(rows[..|rows| - 1])
  }

  /** `INSERT OR IGNORE INTO seen_comments (rpid, oid)`: the first writer of an rpid wins. */
  function InsertOrIgnore(seen: map<Rpid, Oid>, rpid: Rpid, oid: Oid): (r: map<Rpid, Oid>)
    ensures r.Keys == seen.Keys + {rpid}
    ensures forall k | k in seen :: r[k] == seen[k]
    ensures rpid !in seen ==> r[rpid] == oid
  {
    if rpid in seen then seen else seen[rpid := oid]
  }

  /** `SELECT rpid FROM seen_comments WHERE oid = ?`. */
  function SeenFor(seen: map<Rpid, Oid>, oid: Oid): set<Rpid>
  {
    set r | r in seen && seen[r] == oid
  }

  /** The table after `InsertOrIgnore(·, r, oid)` for every `r` of `ids`, in any order. */
  function RecordAll(seen: map<Rpid, Oid>, ids: set<Rpid>, oid: Oid): (r: map<Rpid, Oid>)
    ensures r.Keys == seen.Keys + ids
  {
    map k | k in seen.Keys + ids :: if k in seen then seen[k] else oid
  }

  /** Recording one more id is one more insert-or-ignore. */
  lemma RecordAllInsert(seen: map<Rpid, Oid>, ids: set<Rpid>, rpid: Rpid, oid: Oid)
    ensures InsertOrIgnore(RecordAll(seen, ids, oid), rpid, oid) == RecordAll(seen, ids + {rpid}, oid)
  {
  }

  /** A second insert of an rpid, under any oid, changes nothing. */
  lemma FirstWriterWins(seen: map<Rpid, Oid>, rpid: Rpid, first: Oid, second: Oid)
    ensures InsertOrIgnore(InsertOrIgnore(seen, rpid, first), rpid, second) == InsertOrIgnore(seen, rpid, first)
  {
  }

  /**
   * Loading a video's ids after an insert-or-ignore: the id joins the video it was
   * inserted for unless another video already owns it, and no other video's ids change.
   */
  lemma LoadAfterInsert(seen: map<Rpid, Oid>, rpid: Rpid, oid: Oid, other: Oid)
    requires other != oid
    ensures SeenFor(InsertOrIgnore(seen, rpid, oid), oid)
            == if rpid !in seen || seen[rpid] == oid then SeenFor(seen, oid) + {rpid} else SeenFor(seen, oid)
    ensures SeenFor(InsertOrIgnore(seen, rpid, oid), other) == SeenFor(seen, other)
  {
    var after := InsertOrIgnore(seen, rpid, oid);
    if rpid !in seen {
      assert SeenFor(after, other) == SeenFor(seen, other) by {
        forall k | k in SeenFor(after, other) ensures k in SeenFor(seen, other) {
          assert k != rpid;
        }
      }
    }
  }

  /** Ids recorded for a video and then loaded back: those no other video already owned. */
  lemma LoadAfterRecordAll(seen: map<Rpid, Oid>, ids: set<Rpid>, oid: Oid)
    ensures SeenFor(RecordAll(seen, ids, oid), oid) == SeenFor(seen, oid) + (ids - seen.Keys)
  {
    var after := RecordAll(seen, ids, oid);
    forall k | k in SeenFor(after, oid) ensures k in SeenFor(seen, oid) + (ids - seen.Keys) {
      if k in seen {
        assert after[k] == seen[k];
      }
    }
  }

  /** The store: the schema flag of `CREATE TABLE IF NOT EXISTS` and the two tables. */
  class Store {
    var schemaReady: bool
    /** `videos`, in insertion (`added_at`) order. */
    var videos: seq<VideoRow>
    /** `seen_comments`: rpid to the oid it was first recorded under. */
    var seenComments: map<Rpid, Oid>

    ghost predicate Valid()
      reads this
    {
      UniqueKeys(videos)
    }

    /** A database file that has not been initialised yet. */
    constructor ()
      ensures Valid() && !schemaReady
      ensures videos == [] && seenComments == map[]
    {
      schemaReady := false;
      videos := [];
      seenComments := map[];
    }

    /** `init_db`: creates the tables if missing; existing rows are kept. */
    method InitDb()
      requires Valid()
      modifies this`schemaReady
      ensures Valid() && schemaReady
      ensures videos == old(videos) && seenComments == old(seenComments)
    {
      schemaReady := true;
    }

    /** `add_video_to_db`: True and the row appended, or False and nothing changed. */
    method AddVideo(oid: Oid, bv: BvId, title: string) returns (added: bool)
      requires Valid() && schemaReady
      modifies this`videos
      ensures Valid()
      ensures added <==> !HasOid(old(videos), oid) && !HasBvId(old(videos), bv)
      ensures videos == if added then old(videos) + [VideoRow(oid, bv, title)] else old(videos)
      ensures seenComments == old(seenComments)
    {
      var r := InsertVideo(videos, VideoRow(oid, bv, title));
      added := r.Some?;
      if added {
        videos := r.value;
      }
    }

    /** `remove_video_from_db`: `rowcount > 0`; no cascade to `seen_comments`. */
    method RemoveVideo(oid: Oid) returns (removed: bool)
      requires Valid() && schemaReady
      modifies this`videos
      ensures Valid()
      ensures removed <==> HasOid(old(videos), oid)
      ensures videos == DeleteVideo(old(videos), oid)
      ensures seenComments == old(seenComments)
    {
      var before := |videos|;
      DeleteVideoKeepsKeys(videos, oid);
      videos := DeleteVideo(videos, oid);
      removed := |videos| < before;
    }

    /** `get_monitored_videos`: every row, newest first. */
    method GetMonitoredVideos() returns (rows: seq<VideoRow>)
      requires schemaReady
      ensures |rows| == |videos|
      ensures forall i | 0 <= i < |rows| :: rows[i] == videos[|videos| - 1 - i]
    {
      rows := NewestFirst(videos);
    }

    /** `load_seen_comments_for_video`: exactly the rpids stored under this oid. */
    method LoadSeenComments(oid: Oid) returns (ids: set<Rpid>)
      requires schemaReady
      ensures forall r :: r in ids <==> r in seenComments && seenComments[r] == oid
    {
      ids := SeenFor(seenComments, oid);
    }

    /** `add_comment_to_db`: insert-or-ignore on rpid. */
    method AddComment(rpid: Rpid, oid: Oid)
      requires schemaReady
      modifies this`seenComments
      ensures seenComments == InsertOrIgnore(old(seenComments), rpid, oid)
      ensures videos == old(videos)
    {
      seenComments := InsertOrIgnore(seenComments, rpid, oid);
    }
  }
}
