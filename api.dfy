/** The parts of the platform's JSON replies that the monitor reads, and the record it builds. */
module Api {
  import opened Basics

  /** One entry of a reply's `at_details`. */
  datatype AtDetail = AtDetail(mid: string, uname: string)

  /**
   * A reply object: `rpid_str`, `member.uname`, `content.message`, `ctime`,
   * `at_details` (a missing or empty list is `[]`) and `parent_str`.
   */
  datatype Reply = Reply(
    rpidStr: Rpid,
    uname: string,
    message: string,
    ctime: int,
    atDetails: seq<AtDetail>,
    parentStr: string)

  /** A top-level comment: the reply object plus its `replies` and `rcount` keys, either of which may be absent. */
  datatype Comment = Comment(reply: Reply, replies: Option<seq<Reply>>, rcount: Option<int>)

  /** `comment.get('replies') or []`. */
  function Embedded(c: Comment): seq<Reply> {
    c.replies.GetOr([])
  }

  /** `comment.get('rcount', 0)`. */
  function RCount(c: Comment): int {
    c.rcount.GetOr(0)
  }

  /** One response of the sub-reply endpoint: its `code` and its `data.replies` (None when `data` is absent or empty), or a failed request. */
  datatype PageResponse = Page(code: int, data: Option<seq<Reply>>) | RequestFailed

  /**
   * The record `process_and_notify_comment` returns. `time` is the integer
   * `ctime`; its conversion to a zoned datetime preserves order.
   */
  datatype Record = Record(user: string, message: string, time: int, kind: string)
}
