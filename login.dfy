/**
 * login_bilibili.py: the QR-login polling state machine over a sequence of
 * poll responses, and the cookie string written after a successful login.
 */
module Login {
  import opened Basics
  import opened Text

  const LoginOk: int := 0
  const ScannedAwaitingConfirm: int := 86090
  const NotScanned: int := 86101
  const QrExpired: int := 86038

  /** One answer of the poll endpoint: `data.code` and `data.message`, or a request that raised. */
  datatype PollResponse = Status(code: int, message: string) | PollFailed

  /** How polling ended; only `LoggedIn` returns a session, every other ending returns None. */
  datatype Outcome = LoggedIn | Expired | UnknownStatus(code: int, message: string) | NetworkError | Interrupted

  /** What the loop prints while it keeps polling: the one-time scan message and a progress dot. */
  datatype Notice = ScanConfirmed | Waiting

  /** Codes after which the loop sleeps and polls again. */
  predicate KeepsPolling(p: PollResponse) {
    p.Status? && (p.code == ScannedAwaitingConfirm || p.code == NotScanned)
  }

  predicate IsScanned(p: PollResponse) {
    p.Status? && p.code == ScannedAwaitingConfirm
  }

  /** The index of the first response that ends polling, or `|polls|` when none does. */
  function StopIndex(polls: seq<PollResponse>): (k: nat)
    ensures k <= |polls|
    ensures forall j | 0 <= j < k :: KeepsPolling(polls[j])
    ensures k < |polls| ==> !KeepsPolling(polls[k])
  {
    if polls == [] || !KeepsPolling(polls[0]) then 0 else 1 + StopIndex(polls[1..])
  }

  /** The ending a terminal response causes. */
  function Ending(p: PollResponse): Outcome
    requires !KeepsPolling(p)
  {
    match p
    case PollFailed => NetworkError
    case Status(code, message) =>
      if code == LoginOk then LoggedIn
      else if code == QrExpired then Expired
      else UnknownStatus(code, message)
  }

  /** The notices printed for a run of responses that keep polling, given whether the scan message was shown already. */
  function Notices(polls: seq<PollResponse>, shown: bool): seq<Notice> {
    if polls == [] then []
    else
      (if IsScanned(polls[0]) && !shown then [ScanConfirmed] else [])
      + [Waiting]
      + Notices(polls[1..], shown || IsScanned(polls[0]))
  }

  /** One more response that keeps polling: the notices printed so far grow by its own notices. */
  lemma NoticesAdvance(polls: seq<PollResponse>, i: nat, stop: nat, shown: bool, before: seq<Notice>)
    requires i < stop <= |polls|
    requires before + Notices(polls[i..stop], shown) == Notices(polls[..stop], false)
    ensures (if IsScanned(polls[i]) && !shown then before + [ScanConfirmed] + [Waiting] else before + [Waiting])
            + Notices(polls[i + 1..stop], shown || IsScanned(polls[i]))
            == Notices(polls[..stop], false)
  {
    var rest := polls[i..stop];
    assert rest[0] == polls[i];
    assert rest[1..] == polls[i + 1..stop];
    var tail := Notices(polls[i + 1..stop], shown || IsScanned(polls[i]));
    if IsScanned(polls[i]) && !shown {
      assert Notices(rest, shown) == [ScanConfirmed] + [Waiting] + tail;
      assert before + [ScanConfirmed] + [Waiting] + tail == before + ([ScanConfirmed] + [Waiting] + tail);
    } else {
      assert Notices(rest, shown) == [] + [Waiting] + tail;
      assert before + [Waiting] + tail == before + ([] + [Waiting] + tail);
    }
  }

  /**
   * `poll_for_login_status`: polls in order until a response ends it; running out
   * of responses stands for the user's Ctrl+C (KeyboardInterrupt), which also returns None.
   */
  method PollForLoginStatus(polls: seq<PollResponse>) returns (outcome: Outcome, notices: seq<Notice>)
    ensures outcome == if StopIndex(polls) < |polls| then Ending(polls[StopIndex(polls)]) else Interrupted
    ensures notices == Notices(polls[..StopIndex(polls)], false)
  {
    ghost var stop := StopIndex(polls);
    var scanConfirmedMessageShown := false;
    notices := [];
    var i := 0;
    assert polls[0..stop] == polls[..stop];
    while true
      invariant 0 <= i <= stop
      invariant notices + Notices(polls[i..stop], scanConfirmedMessageShown) == Notices(polls[..stop], false)
      decreases |polls| - i
    {
      if i == |polls| {
        // the user interrupts while the loop waits
        assert polls[i..stop] == [];
        return Interrupted, notices;
      }
      var response := polls[i];
      if response.PollFailed? {
        assert polls[i..stop] == [];
        return NetworkError, notices;
      }
      var statusCode := response.code;
      ghost var before, shownBefore := notices, scanConfirmedMessageShown;
      if statusCode == LoginOk {
        assert polls[i..stop] == [];
        return LoggedIn, notices;
      } else if statusCode == ScannedAwaitingConfirm {
        if !scanConfirmedMessageShown {
          notices := notices + [ScanConfirmed];
          scanConfirmedMessageShown := true;
        }
      } else if statusCode == NotScanned {
      } else if statusCode == QrExpired {
        assert polls[i..stop] == [];
        return Expired, notices;
      } else {
        assert polls[i..stop] == [];
        return UnknownStatus(statusCode, response.message), notices;
      }
      notices := notices + [Waiting];
      NoticesAdvance(polls, i, stop, shownBefore, before);
      i := i + 1;
    }
  }

  /** A session is returned exactly when some response has code 0 and every response before it kept polling. */
  lemma LoggedInIff(polls: seq<PollResponse>)
    ensures (StopIndex(polls) < |polls| && Ending(polls[StopIndex(polls)]) == LoggedIn)
            <==> exists i | 0 <= i < |polls| :: polls[i].Status? && polls[i].code == LoginOk
                                             && forall j | 0 <= j < i :: KeepsPolling(polls[j])
  {
    var k := StopIndex(polls);
    if exists i | 0 <= i < |polls| :: polls[i].Status? && polls[i].code == LoginOk && forall j | 0 <= j < i :: KeepsPolling(polls[j]) {
      var i :| 0 <= i < |polls| && polls[i].Status? && polls[i].code == LoginOk && forall j | 0 <= j < i :: KeepsPolling(polls[j]);
      assert !KeepsPolling(polls[i]);
      assert i == k;
    }
  }

  function CountScan(ns: seq<Notice>): nat {
    if ns == [] then 0 else (if ns[0] == ScanConfirmed then 1 else 0) + CountScan(ns[1..])
  }

  function CountWaiting(ns: seq<Notice>): nat {
    if ns == [] then 0 else (if ns[0] == Waiting then 1 else 0) + CountWaiting(ns[1..])
  }

  lemma {:induction false} CountsAppend(a: seq<Notice>, b: seq<Notice>)
    ensures CountScan(a + b) == CountScan(a) + CountScan(b)
    ensures CountWaiting(a + b) == CountWaiting(a) + CountWaiting(b)
  {
    if a != [] {
      assert (a + b)[1..] == a[1..] + b;
      CountsAppend(a[1..], b);
    } else {
      assert a + b == b;
    }
  }

  /**
   * The scan message appears at most once, and exactly once when some response
   * was 86090 (none once it has been shown); one progress dot per response that kept polling.
   */
  lemma {:induction false} NoticeCounts(polls: seq<PollResponse>, shown: bool)
    ensures CountWaiting(Notices(polls, shown)) == |polls|
    ensures CountScan(Notices(polls, shown)) == if !shown && exists i | 0 <= i < |polls| :: IsScanned(polls[i]) then 1 else 0
  {
    if polls != [] {
      var first: seq<Notice> := if IsScanned(polls[0]) && !shown then [ScanConfirmed] else [];
      var shown' := shown || IsScanned(polls[0]);
      NoticeCounts(polls[1..], shown');
      CountsAppend(first + [Waiting], Notices(polls[1..], shown'));
      CountsAppend(first, [Waiting]);
      if exists i | 0 <= i < |polls| :: IsScanned(polls[i]) {
        var i :| 0 <= i < |polls| && IsScanned(polls[i]);
        if i > 0 {
          assert IsScanned(polls[1..][i - 1]);
        }
      }
      if exists i | 0 <= i < |polls| - 1 :: IsScanned(polls[1..][i]) {
        var i :| 0 <= i < |polls| - 1 && IsScanned(polls[1..][i]);
        assert IsScanned(polls[i + 1]);
      }
    }
  }

  /** The scan message is printed right before the dot of the first 86090 response. */
  lemma {:induction false} ScanNoticePosition(polls: seq<PollResponse>, i: nat)
    requires i < |polls| && IsScanned(polls[i])
    requires forall j | 0 <= j < i :: !IsScanned(polls[j])
    ensures Notices(polls, false) == Notices(polls[..i], false) + [ScanConfirmed, Waiting] + Notices(polls[i + 1..], true)
  {
    if i == 0 {
      assert polls[..0] == [];
    } else {
      ScanNoticePosition(polls[1..], i - 1);
      assert polls[1..][..i - 1] == polls[..i][1..];
      assert polls[1..][i..] == polls[i + 1..];
      assert !IsScanned(polls[0]);
    }
  }

  /** `f"{k}={v}"` for one cookie. */
  function CookiePair(cookie: (string, string)): string {
    cookie.0 + "=" + cookie.1
  }

  /** The cookie pairs in the dictionary's iteration order. */
  function CookiePairs(cookies: seq<(string, string)>): (pairs: seq<string>)
    ensures |pairs| == |cookies|
    ensures forall i | 0 <= i < |cookies| :: pairs[i] == CookiePair(cookies[i])
  {
    seq(|cookies|, i requires 0 <= i < |cookies| => CookiePair(cookies[i]))
  }

  /** `'; '.join(f"{k}={v}" for k, v in cookie_dict.items())`. */
  function CookieString(cookies: seq<(string, string)>): (s: string)
    ensures cookies == [] ==> s == ""
    ensures |cookies| == 1 ==> s == cookies[0].0 + "=" + cookies[0].1
  {
    Join(CookiePairs(cookies), "; ")
  }

  /** Every piece but the first with a space in front. */
  function SpaceAfterFirst(xs: seq<string>): (ys: seq<string>)
    requires xs != []
    ensures |ys| == |xs| && ys[0] == xs[0]
    ensures forall i | 1 <= i < |xs| :: ys[i] == " " + xs[i]
  {
    [xs[0]] + Spaced(xs[1..])
  }

  /** Every piece with a space in front. */
  function Spaced(xs: seq<string>): (ys: seq<string>)
    ensures |ys| == |xs|
    ensures forall i | 0 <= i < |xs| :: ys[i] == " " + xs[i]
  {
    seq(|xs|, i requires 0 <= i < |xs| => " " + xs[i])
  }

  /** Joining with "; " is joining with ";" after putting a space before every later piece. */
  lemma JoinSemicolonSpace(xs: seq<string>)
    requires xs != []
    ensures Join(xs, "; ") == Join(SpaceAfterFirst(xs), ";")
  {
    if |xs| > 1 {
      var ys := SpaceAfterFirst(xs);
      var rest := xs[1..];
      assert ys[1..] == Spaced(rest);
      JoinSpaced(rest);
      assert Join(ys, ";") == xs[0] + ";" + (" " + Join(rest, "; "));
      assert xs[0] + ";" + (" " + Join(rest, "; ")) == xs[0] + "; " + Join(rest, "; ");
    }
  }

  /** A space before every piece of a join with ";" equals one space before the join with "; ". */
  lemma {:induction false} JoinSpaced(xs: seq<string>)
    requires xs != []
    ensures Join(Spaced(xs), ";") == " " + Join(xs, "; ")
  {
    var ys := Spaced(xs);
    if |xs| > 1 {
      var rest := xs[1..];
      JoinSpaced(rest);
      assert ys[1..] == Spaced(rest);
      assert Join(ys, ";") == " " + xs[0] + ";" + (" " + Join(rest, "; "));
      assert " " + xs[0] + ";" + (" " + Join(rest, "; ")) == " " + (xs[0] + "; " + Join(rest, "; "));
    }
  }

  /**
   * When no name or value contains ';', splitting the cookie string at ';'
   * gives back each `name=value` pair in order, every one after the first
   * preceded by the space of the separator.
   */
  lemma CookieStringPieces(cookies: seq<(string, string)>)
    requires cookies != []
    requires forall i | 0 <= i < |cookies| :: ';' !in cookies[i].0 && ';' !in cookies[i].1
    ensures Split(CookieString(cookies), ';') == SpaceAfterFirst(CookiePairs(cookies))
  {
    var pairs := CookiePairs(cookies);
    JoinSemicolonSpace(pairs);
    var ys := SpaceAfterFirst(pairs);
    forall k | 0 <= k < |ys| ensures ';' !in ys[k] {
      assert ';' !in pairs[k];
    }
    SplitJoin(ys, ';');
  }

  /** What `save_cookie_from_session` returns and the text it tries to write. */
  datatype SaveResult = SaveResult(saved: bool, attempted: Option<string>)

  /**
   * `save_cookie_from_session`: a missing session returns False without writing;
   * otherwise the cookie string is written, and the result is whether the write
   * succeeded (`writeSucceeds` stands for the file system).
   */
  function SaveCookieFromSession(session: Option<seq<(string, string)>>, writeSucceeds: bool): (r: SaveResult)
    ensures session.None? ==> !r.saved && r.attempted.None?
    ensures session.Some? ==> r.attempted == Some(CookieString(session.value)) && r.saved == writeSucceeds
  {
    match session
    case None => SaveResult(false, None)
    case Some(cookies) => SaveResult(writeSucceeds, Some(CookieString(cookies)))
  }
}
