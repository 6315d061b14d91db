/**
 * The weekly-standard-hours (WSH) timeline of the leave engine: a list of
 * changes "from this date on, the week has w standard hours", its stable sort
 * by date, the normalisation that guarantees an entry in effect at an anchor
 * date, and the split of a date range into runs of constant WSH.
 */
module Timeline {
  import opened Calendar
  import opened Outcome

  /** From `date` on (that day included) the week has `wsh` standard hours. */
  datatype Change = Change(date: Date, wsh: real)

  /** The days start..end, both included, all with weekly standard hours `wsh`. */
  datatype Segment = Segment(start: Date, end: Date, wsh: real)

  /** Entries in nondecreasing date order. */
  predicate Sorted(cs: seq<Change>) {
    forall i, j :: 0 <= i < j < |cs| ==> NotAfter(cs[i].date, cs[j].date)
  }

  // ---------------------------------------------------------------------
  // Sorting by date (`arr.sort(key=lambda x: x[0])`, a stable sort)
  // ---------------------------------------------------------------------

  /** Inserts c just before the first entry dated on or after it. */
  function Insert(c: Change, cs: seq<Change>): (r: seq<Change>)
    ensures multiset(r) == multiset(cs) + multiset{c}
  {
    if cs == [] || NotAfter(c.date, cs[0].date) then [c] + cs
    else
      assert cs == [cs[0]] + cs[1..];
      [cs[0]] + Insert(c, cs[1..])
  }

  /** Insertion sort by date; earlier entries stay ahead of later ones with the same date. */
  function SortByDate(cs: seq<Change>): (r: seq<Change>)
    ensures multiset(r) == multiset(cs)
  {
    if cs == [] then []
    else
      assert cs == [cs[0]] + cs[1..];
      Insert(cs[0], SortByDate(cs[1..]))
  }

  lemma {:induction false} InsertSorted(c: Change, cs: seq<Change>)
    requires Sorted(cs)
    ensures Sorted(Insert(c, cs))
  {
    if cs != [] && !NotAfter(c.date, cs[0].date) {
      InsertSorted(c, cs[1..]);
      InsertHead(c, cs[1..]);
    }
  }

  /** The first entry of Insert(c, cs) is c or the first entry of cs. */
  lemma InsertHead(c: Change, cs: seq<Change>)
    ensures Insert(c, cs)[0] == c || (cs != [] && Insert(c, cs)[0] == cs[0])
  {
  }

  /** The sort's result is in date order. */
  lemma {:induction false} SortByDateSorted(cs: seq<Change>)
    ensures Sorted(SortByDate(cs))
  {
    if cs != [] {
      SortByDateSorted(cs[1..]);
      InsertSorted(cs[0], SortByDate(cs[1..]));
    }
  }

  /** The entries dated d, in list order. */
  function OnDate(cs: seq<Change>, d: Date): seq<Change> {
    if cs == [] then []
    else (if cs[0].date == d then [cs[0]] else []) + OnDate(cs[1..], d)
  }

  lemma {:induction false} InsertOnDate(c: Change, cs: seq<Change>, d: Date)
    ensures OnDate(Insert(c, cs), d) == (if c.date == d then [c] else []) + OnDate(cs, d)
  {
    if cs != [] && !NotAfter(c.date, cs[0].date) {
      InsertOnDate(c, cs[1..], d);
      var r := Insert(c, cs);
      assert r[0] == cs[0] && r[1..] == Insert(c, cs[1..]);
    }
  }

  /** Stability: entries with equal dates keep their input order. */
  lemma {:induction false} SortByDateStable(cs: seq<Change>, d: Date)
    ensures OnDate(SortByDate(cs), d) == OnDate(cs, d)
  {
    if cs != [] {
      SortByDateStable(cs[1..], d);
      InsertOnDate(cs[0], SortByDate(cs[1..]), d);
    }
  }

  // ---------------------------------------------------------------------
  // normalize_changes
  // ---------------------------------------------------------------------

  /** Whether normalisation prepends the default entry: no entry, or the first one after the anchor. */
  predicate NeedsDefault(anchor: Date, sorted: seq<Change>) {
    sorted == [] || LexBefore(anchor, sorted[0].date)
  }

  /** The timeline sorted by date, with (anchor, default) put in front when nothing is in effect at the anchor. */
  function Normalized(anchor: Date, changes: seq<Change>, defaultWsh: real): seq<Change> {
    var arr := SortByDate(changes);
    if NeedsDefault(anchor, arr) then [Change(anchor, defaultWsh)] + arr else arr
  }

  /**
   * `normalize_changes`: copies the entries, sorts them by date and prepends
   * the default entry when needed. The resulting list is sorted and starts on or
   * before the anchor.
   */
  method NormalizeChanges(anchor: Date, changes: seq<Change>, defaultWsh: real) returns (arr: seq<Change>)
    ensures arr == Normalized(anchor, changes, defaultWsh)
    ensures Sorted(arr)
    ensures |arr| > 0 && NotAfter(arr[0].date, anchor)
  {
    arr := [];
    var i := 0;
    while i < |changes|
      invariant 0 <= i <= |changes|
      invariant arr == changes[..i]
    {
      arr := arr + [Change(changes[i].date, changes[i].wsh)];
      i := i + 1;
    }
    assert arr == changes;
    arr := SortByDate(arr);
    if arr == [] || LexBefore(anchor, arr[0].date) {
      arr := [Change(anchor, defaultWsh)] + arr;
    }
    NormalizedSorted(anchor, changes, defaultWsh);
  }

  /** The normalised timeline is sorted. */
  lemma NormalizedSorted(anchor: Date, changes: seq<Change>, defaultWsh: real)
    ensures Sorted(Normalized(anchor, changes, defaultWsh))
  {
    var arr := SortByDate(changes);
    SortByDateSorted(changes);
    if NeedsDefault(anchor, arr) {
      var r := [Change(anchor, defaultWsh)] + arr;
      forall i, j | 0 <= i < j < |r|
        ensures NotAfter(r[i].date, r[j].date)
      {
        if i == 0 && j > 1 {
          assert NotAfter(arr[0].date, arr[j - 1].date);
        }
      }
    }
  }

  /** The normalised timeline has an entry dated on or before the anchor, first of all. */
  lemma NormalizedCoversAnchor(anchor: Date, changes: seq<Change>, defaultWsh: real)
    ensures var r := Normalized(anchor, changes, defaultWsh);
      |r| > 0 && NotAfter(r[0].date, anchor)
  {
  }

  /** It holds exactly the input entries, plus the default entry when that was needed. */
  lemma NormalizedPermutation(anchor: Date, changes: seq<Change>, defaultWsh: real)
    ensures multiset(Normalized(anchor, changes, defaultWsh)) ==
            multiset(changes) +
            (if NeedsDefault(anchor, SortByDate(changes)) then multiset{Change(anchor, defaultWsh)} else multiset{})
  {
  }

  /** Entries with equal dates keep their input order; only the default entry can be added in front. */
  lemma NormalizedStable(anchor: Date, changes: seq<Change>, defaultWsh: real, d: Date)
    ensures OnDate(Normalized(anchor, changes, defaultWsh), d) ==
            (if NeedsDefault(anchor, SortByDate(changes)) && d == anchor then [Change(anchor, defaultWsh)] else []) +
            OnDate(changes, d)
  {
    SortByDateStable(changes, d);
    var arr := SortByDate(changes);
    if NeedsDefault(anchor, arr) {
      var r := [Change(anchor, defaultWsh)] + arr;
      assert r[0] == Change(anchor, defaultWsh) && r[1..] == arr;
    }
  }

  // ---------------------------------------------------------------------
  // The WSH in effect on a day
  // ---------------------------------------------------------------------

  /**
   * The first loop of `split_by_changes`: walk the entries while they are
   * dated on or before d, remembering the last WSH seen.
   */
  function Scan(cs: seq<Change>, d: Date, cur: Option<real>): Option<real> {
    if cs == [] || LexBefore(d, cs[0].date) then cur
    else Scan(cs[1..], d, Some(cs[0].wsh))
  }

  /** The WSH that the start-of-range scan finds for day d. */
  function WshAt(cs: seq<Change>, d: Date): Option<real> {
    Scan(cs, d, None)
  }

  /** The WSH of the last entry (in list order) dated on or before d: the one in effect on d. */
  function Latest(cs: seq<Change>, d: Date): Option<real> {
    if cs == [] then None
    else
      var rest := Latest(cs[1..], d);
      if rest.Some? then rest
      else if NotAfter(cs[0].date, d) then Some(cs[0].wsh)
      else None
  }

  /** The scan finds nothing exactly when the timeline is empty or starts after d. */
  lemma {:induction false} WshAtUndefinedIff(cs: seq<Change>, d: Date)
    ensures WshAt(cs, d) == None <==> (cs == [] || LexBefore(d, cs[0].date))
  {
    if cs != [] && !LexBefore(d, cs[0].date) {
      ScanKeepsSome(cs[1..], d, cs[0].wsh);
    }
  }

  lemma {:induction false} ScanKeepsSome(cs: seq<Change>, d: Date, w: real)
    ensures Scan(cs, d, Some(w)).Some?
  {
    if cs != [] && !LexBefore(d, cs[0].date) {
      ScanKeepsSome(cs[1..], d, cs[0].wsh);
    }
  }

  /** Nothing is in effect on d when every entry is dated after d. */
  lemma {:induction false} LatestNone(cs: seq<Change>, d: Date)
    requires forall j :: 0 <= j < |cs| ==> LexBefore(d, cs[j].date)
    ensures Latest(cs, d) == None
  {
    if cs != [] {
      LatestNone(cs[1..], d);
    }
  }

  /** The entry at k - 1 is in effect on d when it is dated on or before d and every later entry after d. */
  lemma {:induction false} LatestIs(cs: seq<Change>, k: int, d: Date)
    requires 1 <= k <= |cs|
    requires NotAfter(cs[k - 1].date, d)
    requires forall j :: k <= j < |cs| ==> LexBefore(d, cs[j].date)
    ensures Latest(cs, d) == Some(cs[k - 1].wsh)
  {
    if k == 1 {
      LatestNone(cs[1..], d);
    } else {
      LatestIs(cs[1..], k - 1, d);
    }
  }

  /** On a sorted timeline the scan finds the entry in effect. */
  lemma WshAtIsLatest(cs: seq<Change>, d: Date)
    requires Sorted(cs)
    ensures WshAt(cs, d) == Latest(cs, d)
  {
    ScanIsLatest(cs, d, None);
  }

  lemma {:induction false} ScanIsLatest(cs: seq<Change>, d: Date, cur: Option<real>)
    requires Sorted(cs)
    ensures Scan(cs, d, cur) == if Latest(cs, d).Some? then Latest(cs, d) else cur
  {
    if cs == [] {
    } else if LexBefore(d, cs[0].date) {
      forall j | 0 <= j < |cs|
        ensures LexBefore(d, cs[j].date)
      {
        assert NotAfter(cs[0].date, cs[j].date);
      }
      LatestNone(cs, d);
    } else {
      ScanIsLatest(cs[1..], d, Some(cs[0].wsh));
    }
  }

  /** After normalisation at an anchor, some WSH is in effect on every day from the anchor on. */
  lemma NormalizedDefinedFrom(anchor: Date, changes: seq<Change>, defaultWsh: real, d: Date)
    requires NotAfter(anchor, d)
    ensures WshAt(Normalized(anchor, changes, defaultWsh), d).Some?
  {
    WshAtUndefinedIff(Normalized(anchor, changes, defaultWsh), d);
  }

  // ---------------------------------------------------------------------
  // split_by_changes
  // ---------------------------------------------------------------------

  /** Every segment is non-empty and each one starts the day after the previous one ends. */
  predicate Contiguous(segs: seq<Segment>) {
    (forall k :: 0 <= k < |segs| ==> NotAfter(segs[k].start, segs[k].end)) &&
    (forall k :: 0 <= k < |segs| - 1 ==> segs[k].end == PrevDay(segs[k + 1].start))
  }

  /** The segments cover start..end exactly, in order, without gaps or overlaps. */
  predicate Tiles(segs: seq<Segment>, start: Date, end: Date) {
    |segs| > 0 && segs[0].start == start && segs[|segs| - 1].end == end && Contiguous(segs)
  }

  /** On every day of every segment, the timeline has exactly that segment's WSH in effect. */
  ghost predicate Follows(segs: seq<Segment>, cs: seq<Change>) {
    forall k, x: Date :: 0 <= k < |segs| && NotAfter(segs[k].start, x) && NotAfter(x, segs[k].end) ==>
      Latest(cs, x) == Some(segs[k].wsh)
  }

  /** The closing segment curStart..end, when it is non-empty (the source's `if cur_start <= end`). */
  function Close(curStart: Date, end: Date, curWsh: real): seq<Segment> {
    if NotAfter(curStart, end) then [Segment(curStart, end, curWsh)] else []
  }

  /**
   * The second loop of `split_by_changes` from entry k on, with the current
   * segment opened at curStart with WSH curWsh: entries on or before the start
   * of the range are skipped, the first entry after the end stops the walk, and
   * every other entry closes the current segment the day before it (when that
   * segment is non-empty) and opens the next one.
   */
  function Cut(cs: seq<Change>, k: int, start: Date, end: Date, curStart: Date, curWsh: real): seq<Segment>
    requires 0 <= k <= |cs|
    decreases |cs| - k
  {
    if k == |cs| then Close(curStart, end, curWsh)
    else if NotAfter(cs[k].date, start) then Cut(cs, k + 1, start, end, curStart, curWsh)
    else if LexBefore(end, cs[k].date) then Close(curStart, end, curWsh)
    else
      var segEnd := PrevDay(cs[k].date);
      (if NotAfter(curStart, segEnd) then [Segment(curStart, segEnd, curWsh)] else []) +
      Cut(cs, k + 1, start, end, cs[k].date, cs[k].wsh)
  }

  /** `split_by_changes(start, end, changes)` as a value. */
  function Split(start: Date, end: Date, cs: seq<Change>): Result<seq<Segment>> {
    if LexBefore(end, start) then Ok([])
    else match WshAt(cs, start)
      case None => Err(UndefinedWsh)
      case Some(w) => Ok(Cut(cs, 0, start, end, start, w))
  }

  /**
   * `split_by_changes`: the segments of constant WSH covering start..end. An
   * empty range gives no segments; a range whose first day has no WSH in effect
   * is an error. SplitTiles states what the segments are on a sorted timeline.
   */
  method SplitByChanges(start: Date, end: Date, changes: seq<Change>) returns (r: Result<seq<Segment>>)
    ensures r == Split(start, end, changes)
    ensures LexBefore(end, start) ==> r == Ok([])
    ensures NotAfter(start, end) ==> (r.Err? <==> WshAt(changes, start) == None)
    ensures r.Err? ==> r.error == UndefinedWsh
  {
    if LexBefore(end, start) {
      return Ok([]);
    }
    // The WSH in effect at the start of the range.
    var cur: Option<real> := None;
    var i := 0;
    while i < |changes|
      invariant 0 <= i <= |changes|
      invariant Scan(changes[i..], start, cur) == WshAt(changes, start)
    {
      if NotAfter(changes[i].date, start) {
        assert changes[i..][1..] == changes[i + 1..];
        cur := Some(changes[i].wsh);
        i := i + 1;
      } else {
        break;
      }
    }
    assert cur == WshAt(changes, start);
    if cur == None {
      return Err(UndefinedWsh);
    }
    var curWsh := cur.value;
    ghost var w0 := curWsh;
    var segs: seq<Segment> := [];
    var curStart := start;
    var k := 0;
    while k < |changes|
      invariant 0 <= k <= |changes|
      invariant segs + Cut(changes, k, start, end, curStart, curWsh) == Cut(changes, 0, start, end, start, w0)
    {
      var eff := changes[k].date;
      if NotAfter(eff, start) {
        k := k + 1;
        continue;
      }
      if LexBefore(end, eff) {
        break;
      }
      var segEnd := PrevDay(eff);
      if NotAfter(curStart, segEnd) {
        segs := segs + [Segment(curStart, segEnd, curWsh)];
      }
      curStart := eff;
      curWsh := changes[k].wsh;
      k := k + 1;
    }
    assert Cut(changes, k, start, end, curStart, curWsh) == Close(curStart, end, curWsh);
    if NotAfter(curStart, end) {
      segs := segs + [Segment(curStart, end, curWsh)];
    }
    assert segs == Cut(changes, 0, start, end, start, w0);
    r := Ok(segs);
  }

  /** The number of leading entries dated on or before d. */
  function AtOrBefore(cs: seq<Change>, d: Date): (p: nat)
    ensures p <= |cs|
  {
    if cs == [] || LexBefore(d, cs[0].date) then 0 else 1 + AtOrBefore(cs[1..], d)
  }

  /** The leading entries dated on or before d are exactly the first AtOrBefore(cs, d), and the scan ends on the last of them. */
  lemma {:induction false} AtOrBeforeScan(cs: seq<Change>, d: Date, cur: Option<real>)
    ensures var p := AtOrBefore(cs, d);
      (forall j :: 0 <= j < p ==> NotAfter(cs[j].date, d)) &&
      (p < |cs| ==> LexBefore(d, cs[p].date)) &&
      Scan(cs, d, cur) == if p == 0 then cur else Some(cs[p - 1].wsh)
  {
    if cs != [] && !LexBefore(d, cs[0].date) {
      AtOrBeforeScan(cs[1..], d, Some(cs[0].wsh));
    }
  }

  /** What the walk of Cut keeps true on a sorted timeline (p entries lie on or before the start). */
  ghost predicate CutState(cs: seq<Change>, start: Date, end: Date, p: int, k: int, curStart: Date, curWsh: real) {
    var q := if k < p then p else k;
    1 <= p <= |cs| && 0 <= k <= |cs| &&
    (forall j :: 0 <= j < p ==> NotAfter(cs[j].date, start)) &&
    (p < |cs| ==> LexBefore(start, cs[p].date)) &&
    curWsh == cs[q - 1].wsh && NotAfter(cs[q - 1].date, curStart) &&
    (k < p ==> curStart == start) &&
    (forall j :: q <= j < |cs| ==> NotAfter(curStart, cs[j].date)) &&
    NotAfter(start, curStart) && NotAfter(curStart, end)
  }

  /** On a sorted timeline, a range split that succeeds tiles the range with the WSH in effect. */
  lemma SplitTiles(start: Date, end: Date, cs: seq<Change>)
    requires Sorted(cs) && NotAfter(start, end) && WshAt(cs, start).Some?
    ensures Split(start, end, cs).Ok?
    ensures Tiles(Split(start, end, cs).value, start, end)
    ensures Follows(Split(start, end, cs).value, cs)
  {
    var p := AtOrBefore(cs, start);
    AtOrBeforeScan(cs, start, None);
    forall j | p <= j < |cs|
      ensures NotAfter(start, cs[j].date)
    {
      assert NotAfter(cs[p].date, cs[j].date);
    }
    CutTiles(cs, start, end, p, 0, start, cs[p - 1].wsh);
  }

  lemma {:induction false} CutTiles(cs: seq<Change>, start: Date, end: Date, p: int, k: int,
                                    curStart: Date, curWsh: real)
    requires Sorted(cs) && CutState(cs, start, end, p, k, curStart, curWsh)
    ensures Tiles(Cut(cs, k, start, end, curStart, curWsh), curStart, end)
    ensures Follows(Cut(cs, k, start, end, curStart, curWsh), cs)
    decreases |cs| - k
  {
    if k == |cs| || (!NotAfter(cs[k].date, start) && LexBefore(end, cs[k].date)) {
      CloseFollows(cs, start, end, p, k, curStart, curWsh);
    } else if NotAfter(cs[k].date, start) {
      SkipState(cs, start, end, p, k, curStart, curWsh);
      CutTiles(cs, start, end, p, k + 1, curStart, curWsh);
    } else {
      StepState(cs, start, end, p, k, curStart, curWsh);
      CutTiles(cs, start, end, p, k + 1, cs[k].date, cs[k].wsh);
      StepTiles(cs, start, end, p, k, curStart, curWsh);
    }
  }

  /** An entry on or before the start of the range is skipped. */
  lemma SkipState(cs: seq<Change>, start: Date, end: Date, p: int, k: int, curStart: Date, curWsh: real)
    requires Sorted(cs) && CutState(cs, start, end, p, k, curStart, curWsh)
    requires k < |cs| && NotAfter(cs[k].date, start)
    ensures CutState(cs, start, end, p, k + 1, curStart, curWsh)
  {
    assert k < p;
  }

  /** One step of the walk: the piece closed before entry k, followed by the rest of the walk. */
  lemma StepTiles(cs: seq<Change>, start: Date, end: Date, p: int, k: int, curStart: Date, curWsh: real)
    requires Sorted(cs) && CutState(cs, start, end, p, k, curStart, curWsh)
    requires k < |cs| && LexBefore(start, cs[k].date) && NotAfter(cs[k].date, end)
    requires p <= k && NotAfter(curStart, cs[k].date)
    requires Tiles(Cut(cs, k + 1, start, end, cs[k].date, cs[k].wsh), cs[k].date, end)
    requires Follows(Cut(cs, k + 1, start, end, cs[k].date, cs[k].wsh), cs)
    ensures Tiles(Cut(cs, k, start, end, curStart, curWsh), curStart, end)
    ensures Follows(Cut(cs, k, start, end, curStart, curWsh), cs)
  {
    var eff := cs[k].date;
    var rest := Cut(cs, k + 1, start, end, eff, cs[k].wsh);
    if NotAfter(curStart, PrevDay(eff)) {
      var seg := Segment(curStart, PrevDay(eff), curWsh);
      assert Cut(cs, k, start, end, curStart, curWsh) == [seg] + rest;
      PieceFollows(cs, start, end, p, k, curStart, curWsh);
      PrependTiles(seg, rest, end);
      PrependFollows(seg, rest, cs);
    } else {
      assert Cut(cs, k, start, end, curStart, curWsh) == rest;
      BeforeIffNotAfterPrevDay(curStart, eff);
    }
  }

  /** An entry inside the range moves the walk to that entry's date and WSH. */
  lemma StepState(cs: seq<Change>, start: Date, end: Date, p: int, k: int, curStart: Date, curWsh: real)
    requires Sorted(cs) && CutState(cs, start, end, p, k, curStart, curWsh)
    requires k < |cs| && LexBefore(start, cs[k].date) && NotAfter(cs[k].date, end)
    ensures p <= k && NotAfter(curStart, cs[k].date)
    ensures CutState(cs, start, end, p, k + 1, cs[k].date, cs[k].wsh)
  {
    assert p <= k;
    forall j | k + 1 <= j < |cs|
      ensures NotAfter(cs[k].date, cs[j].date)
    {
    }
  }

  /** The segment closed the day before entry k carries the WSH in effect on each of its days. */
  lemma PieceFollows(cs: seq<Change>, start: Date, end: Date, p: int, k: int, curStart: Date, curWsh: real)
    requires Sorted(cs) && CutState(cs, start, end, p, k, curStart, curWsh)
    requires k < |cs| && p <= k && LexBefore(start, cs[k].date)
    ensures forall x: Date :: NotAfter(curStart, x) && NotAfter(x, PrevDay(cs[k].date)) ==>
              Latest(cs, x) == Some(curWsh)
  {
    var eff := cs[k].date;
    forall x: Date | NotAfter(curStart, x) && NotAfter(x, PrevDay(eff))
      ensures Latest(cs, x) == Some(curWsh)
    {
      BeforeIffNotAfterPrevDay(x, eff);
      forall j | k <= j < |cs|
        ensures LexBefore(x, cs[j].date)
      {
        assert NotAfter(eff, cs[j].date);
      }
      LatestIs(cs, k, x);
    }
  }

  /** The closing segment carries the WSH in effect on each of its days. */
  lemma CloseFollows(cs: seq<Change>, start: Date, end: Date, p: int, k: int, curStart: Date, curWsh: real)
    requires Sorted(cs) && CutState(cs, start, end, p, k, curStart, curWsh)
    requires k < |cs| ==> LexBefore(start, cs[k].date) && LexBefore(end, cs[k].date)
    ensures Tiles(Close(curStart, end, curWsh), curStart, end)
    ensures Follows(Close(curStart, end, curWsh), cs)
  {
    assert p <= k;
    forall x: Date | NotAfter(curStart, x) && NotAfter(x, end)
      ensures Latest(cs, x) == Some(curWsh)
    {
      forall j | k <= j < |cs|
        ensures LexBefore(x, cs[j].date)
      {
        assert NotAfter(cs[k].date, cs[j].date);
      }
      LatestIs(cs, k, x);
    }
  }

  lemma PrependTiles(seg: Segment, rest: seq<Segment>, end: Date)
    requires NotAfter(seg.start, seg.end)
    requires |rest| > 0 && Tiles(rest, rest[0].start, end) && seg.end == PrevDay(rest[0].start)
    ensures Tiles([seg] + rest, seg.start, end)
  {
    var r := [seg] + rest;
    assert forall k :: 1 <= k < |r| ==> r[k] == rest[k - 1];
  }

  lemma PrependFollows(seg: Segment, rest: seq<Segment>, cs: seq<Change>)
    requires Follows(rest, cs)
    requires forall x: Date :: NotAfter(seg.start, x) && NotAfter(x, seg.end) ==> Latest(cs, x) == Some(seg.wsh)
    ensures Follows([seg] + rest, cs)
  {
    var r := [seg] + rest;
    forall k, x: Date | 0 <= k < |r| && NotAfter(r[k].start, x) && NotAfter(x, r[k].end)
      ensures Latest(cs, x) == Some(r[k].wsh)
    {
      if k > 0 {
        assert r[k] == rest[k - 1];
      }
    }
  }

  // ---------------------------------------------------------------------
  // Ranges of WSH values
  // ---------------------------------------------------------------------

  /** Every timeline entry carries a WSH between lo and hi. */
  predicate ChangesWithin(cs: seq<Change>, lo: real, hi: real) {
    forall j :: 0 <= j < |cs| ==> lo <= cs[j].wsh <= hi
  }

  /** All segments carry a WSH between lo and hi. */
  predicate WshWithin(segs: seq<Segment>, lo: real, hi: real) {
    forall k :: 0 <= k < |segs| ==> lo <= segs[k].wsh <= hi
  }

  /** `w` is the WSH of some entry of the timeline. */
  predicate IsEntryWsh(cs: seq<Change>, w: real) {
    exists j :: 0 <= j < |cs| && cs[j].wsh == w
  }

  /** The WSH in effect on a day is one of the timeline's own values. */
  lemma {:induction false} LatestIsEntry(cs: seq<Change>, d: Date)
    requires Latest(cs, d).Some?
    ensures IsEntryWsh(cs, Latest(cs, d).value)
    decreases |cs|
  {
    var w := Latest(cs, d).value;
    if Latest(cs[1..], d).Some? {
      LatestIsEntry(cs[1..], d);
      var j :| 0 <= j < |cs[1..]| && cs[1..][j].wsh == w;
      assert cs[j + 1].wsh == w;
    } else {
      assert cs[0].wsh == w;
    }
  }

  /** The WSH in effect on a day lies in any range that holds every entry. */
  lemma {:induction false} LatestWithin(cs: seq<Change>, d: Date, lo: real, hi: real)
    requires ChangesWithin(cs, lo, hi) && Latest(cs, d).Some?
    ensures lo <= Latest(cs, d).value <= hi
    decreases |cs|
  {
    if Latest(cs[1..], d).Some? {
      assert forall j :: 0 <= j < |cs[1..]| ==> cs[1..][j] == cs[j + 1];
      LatestWithin(cs[1..], d, lo, hi);
    }
  }

  /** Segments that follow a timeline only carry values taken from it. */
  lemma FollowsEntries(segs: seq<Segment>, cs: seq<Change>)
    requires Contiguous(segs) && Follows(segs, cs)
    ensures forall k :: 0 <= k < |segs| ==> IsEntryWsh(cs, segs[k].wsh)
  {
    forall k | 0 <= k < |segs|
      ensures IsEntryWsh(cs, segs[k].wsh)
    {
      var x := segs[k].start;
      assert Latest(cs, x) == Some(segs[k].wsh);
      LatestIsEntry(cs, x);
    }
  }

  /** Segments that follow a timeline stay in any range that holds every entry. */
  lemma FollowsWithin(segs: seq<Segment>, cs: seq<Change>, lo: real, hi: real)
    requires Contiguous(segs) && Follows(segs, cs) && ChangesWithin(cs, lo, hi)
    ensures WshWithin(segs, lo, hi)
  {
    forall k | 0 <= k < |segs|
      ensures lo <= segs[k].wsh <= hi
    {
      var x := segs[k].start;
      assert Latest(cs, x) == Some(segs[k].wsh);
      LatestWithin(cs, x, lo, hi);
    }
  }

  /** Normalising adds no value outside a range that holds the entries and the default. */
  lemma NormalizedWithin(anchor: Date, changes: seq<Change>, defaultWsh: real, lo: real, hi: real)
    requires ChangesWithin(changes, lo, hi) && lo <= defaultWsh <= hi
    ensures ChangesWithin(Normalized(anchor, changes, defaultWsh), lo, hi)
  {
    var cs := Normalized(anchor, changes, defaultWsh);
    NormalizedPermutation(anchor, changes, defaultWsh);
    forall j | 0 <= j < |cs|
      ensures lo <= cs[j].wsh <= hi
    {
      assert cs[j] in multiset(cs);
      if cs[j] != Change(anchor, defaultWsh) {
        assert cs[j] in multiset(changes);
      }
    }
  }

  // ---------------------------------------------------------------------
  // Day counts
  // ---------------------------------------------------------------------

  /** Inclusive day count of a segment. */
  function SegmentDays(s: Segment): int {
    DaysBetweenInclusive(s.start, s.end)
  }

  /** Total inclusive day count of a list of segments. */
  function SumDays(segs: seq<Segment>): int {
    if segs == [] then 0 else SumDays(segs[..|segs| - 1]) + SegmentDays(segs[|segs| - 1])
  }

  /** The day counts of segments that tile a range add up to the day count of the range. */
  lemma {:induction false} TilesDays(segs: seq<Segment>, start: Date, end: Date)
    requires Tiles(segs, start, end)
    ensures SumDays(segs) == DaysBetweenInclusive(start, end)
    decreases |segs|
  {
    var n := |segs|;
    if n > 1 {
      var init := segs[..n - 1];
      assert forall k :: 0 <= k < n - 1 ==> init[k] == segs[k];
      assert Tiles(init, start, segs[n - 2].end);
      TilesDays(init, start, segs[n - 2].end);
      PrevDayOrdinal(segs[n - 1].start);
    } else {
      assert segs[..0] == [];
    }
  }

  /** Every segment of a tiling spans at least one day. */
  lemma TilesSegmentsNonEmpty(segs: seq<Segment>, start: Date, end: Date, k: int)
    requires Tiles(segs, start, end) && 0 <= k < |segs|
    ensures SegmentDays(segs[k]) >= 1
  {
    NotAfterIffOrdinalLe(segs[k].start, segs[k].end);
  }

  /** A non-empty list of non-empty segments spans at least one day per segment. */
  lemma {:induction false} SumDaysAtLeastCount(segs: seq<Segment>)
    requires forall k :: 0 <= k < |segs| ==> SegmentDays(segs[k]) >= 1
    ensures SumDays(segs) >= |segs|
    decreases |segs|
  {
    if segs != [] {
      var init := segs[..|segs| - 1];
      assert forall k :: 0 <= k < |init| ==> init[k] == segs[k];
      SumDaysAtLeastCount(init);
    }
  }

  /** A tiled range is non-empty. */
  lemma TilesRangeNonEmpty(segs: seq<Segment>, start: Date, end: Date)
    requires Tiles(segs, start, end)
    ensures DaysBetweenInclusive(start, end) >= 1
    ensures NotAfter(start, end)
  {
    forall k | 0 <= k < |segs|
      ensures SegmentDays(segs[k]) >= 1
    {
      TilesSegmentsNonEmpty(segs, start, end, k);
    }
    SumDaysAtLeastCount(segs);
    TilesDays(segs, start, end);
    NotAfterIffOrdinalLe(start, end);
  }
}
