/**
 * The start-up menu's pure pieces (main.py): choosing saved videos by their
 * 1-based numbers, removing one, and the minutes/seconds split of the wait banner.
 */
module Menu {
  import opened Basics
  import opened Text
  import opened Database

  /** The value `{"title": ..., "bv_id": ...}` kept for a chosen oid. */
  datatype Selected = Selected(title: string, bvId: BvId)

  /** `choice.replace(',', '').replace(' ', '').isdigit()`: the input is a list of numbers. */
  predicate IsNumberChoice(choice: string) {
    var rest := RemoveChar(RemoveChar(choice, ','), ' ');
    rest != [] && AllDigits(rest)
  }

  /** `int(seg.strip()) - 1`, or None where `int` raises ValueError (an empty segment, or a space between digits). */
  function ParseIndex(seg: string): (r: Option<int>)
    ensures r.Some? ==> r.value >= -1
  {
    var t := Strip(seg);
    if t != [] && AllDigits(t) then Some(DecimalValue(t) - 1) else None
  }

  /** The list comprehension over the segments: None as soon as one segment raises. */
  function ParseIndexList(segs: seq<string>): (r: Option<seq<int>>)
    ensures r.Some? ==> |r.value| == |segs|
    ensures r.Some? ==> forall k | 0 <= k < |segs| :: ParseIndex(segs[k]) == Some(r.value[k])
    ensures r.None? ==> exists k | 0 <= k < |segs| :: ParseIndex(segs[k]).None?
  {
    if segs == [] then Some([])
    else
      var head := ParseIndex(segs[0]);
      var rest := ParseIndexList(segs[1..]);
      if head.None? then None
      else if rest.None? then
        var k :| 0 <= k < |segs| - 1 && ParseIndex(segs[1..][k]).None?;
        assert segs[1..][k] == segs[k + 1];
        None
      else
        assert forall k | 1 <= k < |segs| :: segs[k] == segs[1..][k - 1];
        Some([head.value] + rest.value)
  }

  /** `[int(i.strip()) - 1 for i in choice.split(',')]`. */
  function ParseIndices(choice: string): Option<seq<int>> {
    ParseIndexList(Split(choice, ','))
  }

  /** The 1-based number of a row, as typed: `ShowNat(n + 1)` for each 0-based index `n`. */
  function Numbers(ns: seq<nat>): (r: seq<string>)
    ensures |r| == |ns|
    ensures forall k | 0 <= k < |ns| :: r[k] == ShowNat(ns[k] + 1)
  {
    seq(|ns|, k requires 0 <= k < |ns| => ShowNat(ns[k] + 1))
  }

  /** One typed number reads back as its 0-based index. */
  lemma ParseIndexOfNumber(n: nat)
    ensures ParseIndex(ShowNat(n + 1)) == Some(n)
  {
    var t := ShowNat(n + 1);
    assert IsDigit(t[0]) && IsDigit(t[|t| - 1]);
    assert Leading(t) == 0;
    assert Trailing(t) == 0;
    assert Strip(t) == t;
    DecimalValueOfShowNat(n + 1);
  }

  /** Typing the 1-based numbers of some rows, comma separated, yields exactly their 0-based indices. */
  lemma ParseIndicesOfNumbers(ns: seq<nat>)
    requires ns != []
    ensures var r := ParseIndices(Join(Numbers(ns), ","));
            r.Some? && |r.value| == |ns| && forall k | 0 <= k < |ns| :: r.value[k] == ns[k]
  {
    var texts := Numbers(ns);
    NumbersHaveNoComma(ns);
    SplitJoin(texts, ',');
    NumbersParse(ns);
    assert ParseIndices(Join(texts, ",")) == ParseIndexList(texts);
  }

  lemma NumbersParse(ns: seq<nat>)
    ensures forall k | 0 <= k < |ns| :: ParseIndex(Numbers(ns)[k]) == Some(ns[k] as int)
  {
    var texts := Numbers(ns);
    forall k | 0 <= k < |ns| ensures ParseIndex(texts[k]) == Some(ns[k] as int) {
      var n := ns[k];
      assert texts[k] == ShowNat(n + 1);
      ParseIndexOfNumber(n);
    }
  }

  lemma NumbersHaveNoComma(ns: seq<nat>)
    ensures forall k | 0 <= k < |ns| :: ',' !in Numbers(ns)[k]
  {
    var texts := Numbers(ns);
    forall k | 0 <= k < |texts| ensures ',' !in texts[k] {
      assert AllDigits(texts[k]) && !IsDigit(',');
    }
  }

  /** Typed row numbers, comma separated, take the numeric branch of the menu. */
  lemma NumbersAreNumberChoice(ns: seq<nat>)
    requires ns != []
    ensures IsNumberChoice(Join(Numbers(ns), ","))
  {
    var texts := Numbers(ns);
    var j := Join(texts, ",");
    var drop := {',', ' '};
    RemoveTwice(j, ',', ' ');
    assert j[0] == texts[0][0];
    WithoutNonEmpty(j, drop, 0);
    var w := Without(j, drop);
    WithoutKeepsOthers(j, drop);
    JoinMembers(texts, ",");
    forall i | 0 <= i < |w| ensures IsDigit(w[i]) {
      var x := w[i];
      assert x in w;
      var k :| 0 <= k < |texts| && x in texts[k];
      var m :| 0 <= m < |texts[k]| && texts[k][m] == x;
    }
  }

  /** Whether an index names a saved row (`0 <= i < len(saved_videos)`). */
  predicate ValidIndex(saved: seq<VideoRow>, i: int) {
    0 <= i < |saved|
  }

  /** The selection after applying the indices in order; invalid ones are skipped. */
  function Choose(selected: map<Oid, Selected>, saved: seq<VideoRow>, indices: seq<int>): map<Oid, Selected> {
    if indices == [] then selected
    else
      var before := Choose(selected, saved, indices[..|indices| - 1]);
      var i := indices[|indices| - 1];
      if ValidIndex(saved, i) then before[saved[i].oid := Selected(saved[i].title, saved[i].bvId)] else before
  }

  /** The oids the valid indices name. */
  function PickedOids(saved: seq<VideoRow>, indices: seq<int>): set<Oid> {
    set k, i | 0 <= k < |indices| && i == indices[k] && ValidIndex(saved, i) :: saved[i].oid
  }

  /**
   * Only valid indices add entries; an oid picked by some valid index is mapped
   * to the row picked last for it, whatever the selection held before; every
   * other entry is untouched.
   */
  lemma {:induction false} ChooseEffect(selected: map<Oid, Selected>, other: map<Oid, Selected>, saved: seq<VideoRow>, indices: seq<int>)
    ensures Choose(selected, saved, indices).Keys == selected.Keys + PickedOids(saved, indices)
    ensures Choose(other, saved, indices).Keys == other.Keys + PickedOids(saved, indices)
    ensures forall o | o in PickedOids(saved, indices) :: Choose(selected, saved, indices)[o] == Choose(other, saved, indices)[o]
    ensures forall o | o in selected && o !in PickedOids(saved, indices) :: Choose(selected, saved, indices)[o] == selected[o]
  {
    ChooseKeys(selected, saved, indices);
    ChooseKeys(other, saved, indices);
    if indices != [] {
      ChooseEffect(selected, other, saved, indices[..|indices| - 1]);
      PickedOidsSnoc(saved, indices);
    }
  }

  /** The keys after choosing: those selected before and the oids the valid indices pick. */
  lemma {:induction false} ChooseKeys(selected: map<Oid, Selected>, saved: seq<VideoRow>, indices: seq<int>)
    ensures Choose(selected, saved, indices).Keys == selected.Keys + PickedOids(saved, indices)
  {
    if indices != [] {
      ChooseKeys(selected, saved, indices[..|indices| - 1]);
      PickedOidsSnoc(saved, indices);
    }
  }

  /**
   * `selected_videos[oid] = {"title": title, "bv_id": bv_id}`: with the table's
   * unique keys, every oid a valid index picks ends up mapped to that row's
   * title and bv_id.
   */
  lemma {:induction false} ChooseValues(selected: map<Oid, Selected>, saved: seq<VideoRow>, indices: seq<int>)
    requires UniqueKeys(saved)
    ensures forall k | 0 <= k < |indices| && ValidIndex(saved, indices[k]) ::
              saved[indices[k]].oid in Choose(selected, saved, indices)
              && Choose(selected, saved, indices)[saved[indices[k]].oid]
                 == Selected(saved[indices[k]].title, saved[indices[k]].bvId)
  {
    if indices != [] {
      var init := indices[..|indices| - 1];
      var last := indices[|indices| - 1];
      ChooseValues(selected, saved, init);
      forall k | 0 <= k < |indices| && ValidIndex(saved, indices[k])
        ensures saved[indices[k]].oid in Choose(selected, saved, indices)
                && Choose(selected, saved, indices)[saved[indices[k]].oid]
                   == Selected(saved[indices[k]].title, saved[indices[k]].bvId)
      {
        var i := indices[k];
        if ValidIndex(saved, last) && saved[last].oid == saved[i].oid {
          assert last == i;
        } else if k < |indices| - 1 {
          assert init[k] == i;
        }
      }
    }
  }

  /** The oids a list picks are those its prefix picks and the one its last index picks. */
  lemma PickedOidsSnoc(saved: seq<VideoRow>, indices: seq<int>)
    requires indices != []
    ensures var i := indices[|indices| - 1];
            PickedOids(saved, indices)
            == PickedOids(saved, indices[..|indices| - 1]) + (if ValidIndex(saved, i) then {saved[i].oid} else {})
  {
    var init := indices[..|indices| - 1];
    var i := indices[|indices| - 1];
    forall o | o in PickedOids(saved, indices) ensures o in PickedOids(saved, init) + (if ValidIndex(saved, i) then {saved[i].oid} else {}) {
      var k, j :| 0 <= k < |indices| && j == indices[k] && ValidIndex(saved, j) && o == saved[j].oid;
      if k < |indices| - 1 {
        assert init[k] == j;
      }
    }
    forall o | o in PickedOids(saved, init) ensures o in PickedOids(saved, indices) {
      var k, j :| 0 <= k < |init| && j == init[k] && ValidIndex(saved, j) && o == saved[j].oid;
      assert indices[k] == j;
    }
  }

  /** Applying one more index of a list. */
  lemma ChooseStep(selected: map<Oid, Selected>, saved: seq<VideoRow>, indices: seq<int>, k: nat)
    requires k < |indices|
    ensures var i := indices[k];
            Choose(selected, saved, indices[..k + 1])
            == if ValidIndex(saved, i) then Choose(selected, saved, indices[..k])[saved[i].oid := Selected(saved[i].title, saved[i].bvId)]
               else Choose(selected, saved, indices[..k])
  {
    assert indices[..k + 1][..k] == indices[..k];
  }

  /** Re-entering the same numbers changes nothing more: selections are keyed by oid. */
  lemma ChooseIdempotent(selected: map<Oid, Selected>, saved: seq<VideoRow>, indices: seq<int>)
    ensures Choose(Choose(selected, saved, indices), saved, indices) == Choose(selected, saved, indices)
  {
    var once := Choose(selected, saved, indices);
    ChooseEffect(once, selected, saved, indices);
    ChooseEffect(selected, selected, saved, indices);
  }

  /**
   * The numeric branch of the menu loop: the whole index list is parsed before
   * any insertion, so input that raises ValueError changes nothing.
   */
  method SelectVideos(choice: string, saved: seq<VideoRow>, selected: map<Oid, Selected>) returns (result: map<Oid, Selected>)
    requires IsNumberChoice(choice)
    ensures ParseIndices(choice).None? ==> result == selected
    ensures ParseIndices(choice).Some? ==> result == Choose(selected, saved, ParseIndices(choice).value)
    ensures ParseIndices(choice).Some? ==> result.Keys == selected.Keys + PickedOids(saved, ParseIndices(choice).value)
  {
    var parsed := ParseIndices(choice);
    if parsed.None? {
      return selected;
    }
    var indices := parsed.value;
    result := selected;
    for k := 0 to |indices|
      invariant result == Choose(selected, saved, indices[..k])
    {
      var i := indices[k];
      ChooseStep(selected, saved, indices, k);
      if 0 <= i < |saved| {
        var row := saved[i];
        result := result[row.oid := Selected(row.title, row.bvId)];
      }
    }
    assert indices[..|indices|] == indices;
    ChooseEffect(selected, selected, saved, indices);
  }

  /** Python's `int(s)` on a stripped string: an optional sign and ASCII digits, or None for ValueError. */
  function ParseInt(s: string): (r: Option<int>)
    ensures r.Some? ==> |s| >= 1
    ensures r.None? <==> !(s != [] && AllDigits(s)) && !(|s| >= 2 && (s[0] == '-' || s[0] == '+') && AllDigits(s[1..]))
  {
    if |s| >= 2 && (s[0] == '-' || s[0] == '+') && AllDigits(s[1..]) then
      Some(if s[0] == '-' then -(DecimalValue(s[1..]) as int) else DecimalValue(s[1..]))
    else if s != [] && AllDigits(s) then Some(DecimalValue(s))
    else None
  }

  /** What `f"{i}"` prints, `int` reads back. */
  lemma ParseIntOfShowInt(i: int)
    ensures ParseInt(ShowInt(i)) == Some(i)
  {
    var n: nat := if i < 0 then -i else i;
    var digits := ShowNat(n);
    DecimalValueOfShowNat(n);
    if i < 0 {
      assert ShowInt(i) == "-" + digits;
      ParseIntOfNegative(digits);
    } else {
      assert ShowInt(i) == digits;
      ParseIntOfDigits(digits);
    }
  }

  /** A string of digits reads as its decimal value. */
  lemma ParseIntOfDigits(s: string)
    requires s != [] && AllDigits(s)
    ensures ParseInt(s) == Some(DecimalValue(s) as int)
  {
    assert IsDigit(s[0]);
  }

  /** A leading zero changes nothing: "01" reads as 1. */
  lemma ParseIntLeadingZero(s: string)
    requires s != [] && AllDigits(s)
    ensures ParseInt("0" + s) == ParseInt(s)
  {
    DecimalValueLeadingZero(s);
    ParseIntOfDigits(s);
    ParseIntOfDigits("0" + s);
  }

  /** A plus sign before a string of digits reads as the decimal value. */
  lemma ParseIntOfPositive(s: string)
    requires s != [] && AllDigits(s)
    ensures ParseInt("+" + s) == Some(DecimalValue(s) as int)
  {
    var t := "+" + s;
    assert t[0] == '+';
    assert t[1..] == s;
  }

  /** A minus sign before a string of digits reads as the negated decimal value. */
  lemma ParseIntOfNegative(s: string)
    requires s != [] && AllDigits(s)
    ensures ParseInt("-" + s) == Some(-(DecimalValue(s) as int))
  {
    var t := "-" + s;
    assert t[0] == '-';
    assert t[1..] == s;
  }

  /**
   * The row the 'r' branch deletes: `int(remove_choice) - 1` must name a listed
   * row and the confirmation must be exactly 'y'; otherwise nothing.
   */
  function RemoveTarget(saved: seq<VideoRow>, removeChoice: string, confirm: string): (r: Option<Oid>)
    ensures r.Some? ==> confirm == "y" && exists i | 0 <= i < |saved| :: r.value == saved[i].oid
    ensures saved == [] ==> r.None?
    ensures r.Some? <==> confirm == "y" && ParseInt(removeChoice).Some? && 1 <= ParseInt(removeChoice).value <= |saved|
    ensures r.Some? ==> r.value == saved[ParseInt(removeChoice).value - 1].oid
  {
    var n := ParseInt(removeChoice);
    if n.Some? && ValidIndex(saved, n.value - 1) && confirm == "y" then Some(saved[n.value - 1].oid) else None
  }

  /** Typing the number shown beside row `i` and confirming with 'y' targets that row; any other answer targets nothing. */
  lemma RemoveTargetOfNumber(saved: seq<VideoRow>, i: nat, answer: string)
    requires i < |saved|
    ensures RemoveTarget(saved, ShowInt(i + 1), answer) == if answer == "y" then Some(saved[i].oid) else None
  {
    ParseIntOfShowInt(i + 1);
  }

  /**
   * The 'r' branch: the target row is deleted, and its oid leaves the
   * selection only if the delete reported a removed row.
   */
  method RemoveFromMenu(db: Store, saved: seq<VideoRow>, removeChoice: string, confirm: string, selected: map<Oid, Selected>)
    returns (result: map<Oid, Selected>)
    requires db.Valid() && db.schemaReady
    modifies db`videos
    ensures db.Valid()
    ensures db.videos == match RemoveTarget(saved, removeChoice, confirm)
                         case None => old(db.videos)
                         case Some(oid) => DeleteVideo(old(db.videos), oid)
    ensures result == match RemoveTarget(saved, removeChoice, confirm)
                      case None => selected
                      case Some(oid) => if HasOid(old(db.videos), oid) then selected - {oid} else selected
    ensures db.seenComments == old(db.seenComments)
  {
    result := selected;
    if saved == [] {
      return;
    }
    var n := ParseInt(removeChoice);
    if n.None? {
      return;
    }
    var idx := n.value - 1;
    if 0 <= idx < |saved| {
      var oidToRemove := saved[idx].oid;
      if confirm == "y" {
        assert RemoveTarget(saved, removeChoice, confirm) == Some(oidToRemove);
        var removed := db.RemoveVideo(oidToRemove);
        if removed {
          if oidToRemove in result {
            result := result - {oidToRemove};
          }
        } else {
          assert result == selected;
        }
      }
    }
  }

  /** `interval_seconds // 60` and `interval_seconds % 60` (Python floors; the divisor is positive). */
  function SplitMinutes(intervalSeconds: int): (r: (int, int))
    ensures r.0 * 60 + r.1 == intervalSeconds
    ensures 0 <= r.1 < 60
  {
    (intervalSeconds / 60, intervalSeconds % 60)
  }

  /** The quotient and remainder are the only pair with these two properties. */
  lemma SplitMinutesUnique(intervalSeconds: int, m: int, s: int)
    requires m * 60 + s == intervalSeconds && 0 <= s < 60
    ensures SplitMinutes(intervalSeconds) == (m, s)
  {
    var r := SplitMinutes(intervalSeconds);
    assert (m - r.0) * 60 == r.1 - s;
  }

  /** The wait banner's phrase: minutes are shown only when there is at least one. */
  function WaitMessage(intervalSeconds: int): string {
    var (minutes, seconds) := SplitMinutes(intervalSeconds);
    if minutes > 0 then "等待 " + ShowInt(minutes) + " 分钟 " + ShowInt(seconds) + " 秒后"
    else "等待 " + ShowInt(seconds) + " 秒后"
  }

  /** Minutes appear in the banner exactly for intervals of a minute or more. */
  lemma WaitMessageForm(intervalSeconds: int)
    ensures intervalSeconds >= 60 ==>
              (WaitMessage(intervalSeconds)
               == "等待 " + ShowInt(intervalSeconds / 60) + " 分钟 " + ShowInt(intervalSeconds % 60) + " 秒后")
    ensures intervalSeconds < 60 ==> WaitMessage(intervalSeconds) == "等待 " + ShowInt(intervalSeconds % 60) + " 秒后"
  {
  }
}
