/** The builder window's session state, stripped of widgets: the song
    filter, the recent-projects list, the global vinyl mask, the bulk
    switches, song removal, the generation counts, and the two ways the
    song list gets reordered. */
module Session {
  import opened Strings
  import opened Sorting
  import opened Names
  import Workspace

  /** One song's row in the list: the ogg file name that keys it, the
      source file name it shows, and its conversion status. */
  datatype Row = Row(ogg: string, source: string, status: string)

  /** One song's settings; an empty cover or B-side means none is set. */
  datatype TrackSettings = TrackSettings(cassette: bool, vinyl: bool, cover: string, bSide: string, placement: string)

  // ---------------------------------------------------------------- filter

  /** `str.find`: the first index at or after `pos` holding `c`, or -1. */
  function FindFrom(t: string, c: char, pos: nat): (r: int)
    ensures r == -1 || (pos <= r < |t| && t[r] == c)
    ensures r == -1 ==> forall i :: pos <= i < |t| ==> t[i] != c
    ensures r >= 0 ==> forall i :: pos <= i < r ==> t[i] != c
    decreases |t| - pos
  {
    if pos >= |t| then -1 else if t[pos] == c then pos else FindFrom(t, c, pos + 1)
  }

  /** The loop of `_fuzzy_match`: find each query character after the last. */
  function ScanFrom(t: string, q: string, pos: nat): bool
    decreases |q|
  {
    if |q| == 0 then true
    else
      var p := FindFrom(t, q[0], pos);
      if p < 0 then false else ScanFrom(t, q[1..], p + 1)
  }

  /** `_fuzzy_match`: a blank query matches everything. */
  function FuzzyMatch(text: string, query: string): (r: bool)
    ensures AllSpace(query) ==> r
  {
    var t := Lower(text);
    var q := Lower(Strip(query));
    if |q| == 0 then true
    else if IsSubstring(q, t) then true
    else ScanFrom(t, q, 0)
  }

  lemma {:induction false} FindFromSubsequence(t: string, q: string, pos: nat)
    requires |q| > 0 && pos <= |t|
    ensures IsSubsequence(q, t[pos..]) <==>
      var p := FindFrom(t, q[0], pos); p >= 0 && IsSubsequence(q[1..], t[p + 1..])
    decreases |t| - pos
  {
    if pos < |t| {
      assert t[pos..][0] == t[pos] && t[pos..][1..] == t[pos + 1..];
      if t[pos] != q[0] {
        FindFromSubsequence(t, q, pos + 1);
      }
    }
  }

  lemma {:induction false} ScanFromSubsequence(t: string, q: string, pos: nat)
    requires pos <= |t|
    ensures ScanFrom(t, q, pos) <==> IsSubsequence(q, t[pos..])
    decreases |q|
  {
    if |q| > 0 {
      FindFromSubsequence(t, q, pos);
      var p := FindFrom(t, q[0], pos);
      if p >= 0 {
        ScanFromSubsequence(t, q[1..], p + 1);
      }
    }
  }

  /** The filter matches exactly when the trimmed, lower-cased query can be
      read off the lower-cased song name left to right, skipping letters; the
      substring shortcut never changes the answer. */
  lemma FuzzyMatchSubsequence(text: string, query: string)
    ensures FuzzyMatch(text, query) <==>
      AllSpace(query) || IsSubsequence(Lower(Strip(query)), Lower(text))
  {
    var t := Lower(text);
    var q := Lower(Strip(query));
    assert t[0..] == t;
    ScanFromSubsequence(t, q, 0);
    if IsSubstring(q, t) {
      SubstringIsSubsequence(q, t);
    }
    if |q| == 0 {
      StripAllSpace(query);
    }
  }

  // -------------------------------------------------------- recent projects

  const RecentLimit: nat := 20

  /** The list with every occurrence of `p` dropped: a subsequence of
      `xs`, shorter by exactly the number of `p`s in it. */
  function Without(xs: seq<string>, p: string): (r: seq<string>)
    ensures p !in r && |r| <= |xs|
    ensures forall x :: x in r <==> x in xs && x != p
    ensures |r| == |xs| - multiset(xs)[p]
  {
    if |xs| == 0 then []
    else
      assert xs == [xs[0]] + xs[1..];
      (if xs[0] == p then [] else [xs[0]]) + Without(xs[1..], p)
  }

  predicate Distinct<T(==)>(xs: seq<T>) {
    forall i, j :: 0 <= i < j < |xs| ==> xs[i] != xs[j]
  }

  /** `_push_recent_project`: `p` moves to the front, once, and the list is
      cut to its limit. */
  function PushRecent(recent: seq<string>, p: string): (r: seq<string>)
    ensures 1 <= |r| <= RecentLimit && r[0] == p && p !in r[1..]
    ensures forall x :: x in r[1..] ==> x in recent
    ensures |r| == if |Without(recent, p)| < RecentLimit then |Without(recent, p)| + 1 else RecentLimit
    ensures r[1..] == Without(recent, p)[..|r| - 1]
  {
    var all := [p] + Without(recent, p);
    if |all| <= RecentLimit then all else all[..RecentLimit]
  }

  lemma {:induction false} WithoutSubsequence(xs: seq<string>, p: string)
    ensures IsSubsequence(Without(xs, p), xs)
  {
    if |xs| > 0 {
      WithoutSubsequence(xs[1..], p);
      if xs[0] != p {
        assert ([xs[0]] + Without(xs[1..], p))[1..] == Without(xs[1..], p);
      } else {
        assert Without(xs, p) == Without(xs[1..], p);
        SubsequenceExtend(Without(xs, p), xs);
      }
    }
  }

  lemma {:induction false} WithoutAbsent(xs: seq<string>, p: string)
    requires p !in xs
    ensures Without(xs, p) == xs
  {
    if |xs| > 0 {
      WithoutAbsent(xs[1..], p);
      assert xs == [xs[0]] + xs[1..];
    }
  }

  lemma {:induction false} WithoutDistinct(xs: seq<string>, p: string)
    requires Distinct(xs)
    ensures Distinct(Without(xs, p))
  {
    if |xs| > 0 {
      WithoutDistinct(xs[1..], p);
      var rest := Without(xs[1..], p);
      assert xs[0] !in xs[1..];
      assert xs[0] !in rest;
    }
  }

  /** The projects after the front keep their old relative order. */
  lemma PushRecentOrder(recent: seq<string>, p: string)
    ensures IsSubsequence(PushRecent(recent, p)[1..], recent)
  {
    var r := PushRecent(recent, p);
    var w := Without(recent, p);
    WithoutSubsequence(recent, p);
    assert r[1..] == w[..|r| - 1];
    SubsequencePrefix(w, recent, |r| - 1);
  }

  /** Opening the front project again leaves the list as it is. */
  lemma PushRecentIdempotent(recent: seq<string>, p: string)
    ensures PushRecent(PushRecent(recent, p), p) == PushRecent(recent, p)
  {
    var r := PushRecent(recent, p);
    assert r == [r[0]] + r[1..];
    WithoutAbsent(r[1..], p);
    assert Without(r, p) == r[1..];
  }

  /** A list without repeats stays without repeats. */
  lemma PushRecentDistinct(recent: seq<string>, p: string)
    requires Distinct(recent)
    ensures Distinct(PushRecent(recent, p))
  {
    WithoutDistinct(recent, p);
  }

  // ------------------------------------------------------ global vinyl mask

  /** Python's `a or b` on strings. */
  function Or(a: string, b: string): string {
    if a != "" then a else b
  }

  /** The mask `apply_global_vinyl_mask` stores: the given value, else the
      current one, else "inside"; anything but the two names means inside. */
  function NormaliseMask(value: string, current: string): (m: string)
    ensures m == Inside || m == Outside
    ensures m == Outside <==> Normalised(Or(Or(value, current), Inside)) == Outside
  {
    var mask := Normalised(Or(Or(value, current), Inside));
    if mask == Outside then Outside else Inside
  }

  /** Every track's placement set to `mask`, nothing else changed. */
  function SetPlacements(settings: map<string, TrackSettings>, mask: string): (r: map<string, TrackSettings>)
    ensures r.Keys == settings.Keys
    ensures forall k :: k in settings ==> r[k].placement == mask
    ensures forall k :: k in settings ==> r[k].(placement := "") == settings[k].(placement := "")
  {
    map k | k in settings :: settings[k].(placement := mask)
  }

  /** `apply_global_vinyl_mask`: the stored mask, and every track's
      placement set to it. */
  function ApplyGlobalMask(settings: map<string, TrackSettings>, value: string, current: string): (r: (string, map<string, TrackSettings>))
    ensures r.0 == NormaliseMask(value, current)
    ensures r.1 == SetPlacements(settings, r.0)
  {
    var mask := NormaliseMask(value, current);
    (mask, SetPlacements(settings, mask))
  }

  /** The mask `toggle_global_vinyl_mask` switches to: inside turns to
      outside, anything else to inside. */
  function ToggledMask(current: string): (m: string)
    ensures m == Inside || m == Outside
    ensures m == Outside <==> Normalised(Or(current, Inside)) == Inside
  {
    if Normalised(Or(current, Inside)) == Inside then Outside else Inside
  }

  /** `toggle_global_vinyl_mask`: the toggled mask is stored and every
      track's placement is set to it. */
  function ToggleGlobalMask(settings: map<string, TrackSettings>, current: string): (r: (string, map<string, TrackSettings>))
    ensures r.0 == ToggledMask(current)
    ensures r.1 == SetPlacements(settings, r.0)
  {
    CanonicalMasks(current);
    ApplyGlobalMask(settings, ToggledMask(current), current)
  }

  lemma CanonicalMasks(current: string)
    ensures NormaliseMask(Inside, current) == Inside
    ensures NormaliseMask(Outside, current) == Outside
  {
    NormalisedPlain(Inside);
    NormalisedPlain(Outside);
  }

  /** Inside toggles to outside and back. */
  lemma ToggleFlips(settings: map<string, TrackSettings>, current: string)
    requires current == Inside || current == Outside
    ensures ToggleGlobalMask(settings, current).0 == if current == Inside then Outside else Inside
  {
    NormalisedPlain(current);
    assert Or(current, Inside) == current;
  }

  lemma PlacementDecides(a: TrackSettings, b: TrackSettings)
    requires a.(placement := "") == b.(placement := "") && a.placement == b.placement
    ensures a == b
  {
  }

  /** Toggling twice restores the mask and the placements. */
  lemma ToggleTwice(settings: map<string, TrackSettings>, current: string)
    requires current == Inside || current == Outside
    requires forall k :: k in settings ==> settings[k].placement == current
    ensures var once := ToggleGlobalMask(settings, current);
      ToggleGlobalMask(once.1, once.0) == (current, settings)
  {
    var once := ToggleGlobalMask(settings, current);
    ToggleFlips(settings, current);
    ToggleFlips(once.1, once.0);
    SetPlacementsTwice(settings, once.0, current);
    SetPlacementsSame(settings, current);
  }

  /** Re-applying the mask the tracks already carry changes nothing. */
  lemma ApplyCurrentMask(settings: map<string, TrackSettings>, mask: string)
    requires mask == Inside || mask == Outside
    requires forall k :: k in settings ==> settings[k].placement == mask
    ensures ApplyGlobalMask(settings, mask, mask) == (mask, settings)
  {
    MaskFixed(mask);
    SetPlacementsSame(settings, mask);
  }

  lemma MaskFixed(mask: string)
    requires mask == Inside || mask == Outside
    ensures NormaliseMask(mask, mask) == mask
  {
    CanonicalMasks(mask);
  }

  /** Setting the placements to the one they all have changes nothing. */
  lemma SetPlacementsSame(settings: map<string, TrackSettings>, mask: string)
    requires forall k :: k in settings ==> settings[k].placement == mask
    ensures SetPlacements(settings, mask) == settings
  {
    var after := SetPlacements(settings, mask);
    forall k | k in settings ensures after[k] == settings[k] {
      PlacementDecides(after[k], settings[k]);
    }
  }

  /** Only the last placement set counts. */
  lemma SetPlacementsTwice(settings: map<string, TrackSettings>, a: string, b: string)
    ensures SetPlacements(SetPlacements(settings, a), b) == SetPlacements(settings, b)
  {
    var once := SetPlacements(settings, a);
    var twice := SetPlacements(once, b);
    var direct := SetPlacements(settings, b);
    forall k | k in settings ensures twice[k] == direct[k] {
      assert twice[k].(placement := "") == once[k].(placement := "");
      PlacementDecides(twice[k], direct[k]);
    }
  }

  /** Applying the same mask again changes nothing. */
  lemma ApplyGlobalMaskIdempotent(settings: map<string, TrackSettings>, value: string, current: string)
    ensures var once := ApplyGlobalMask(settings, value, current);
      ApplyGlobalMask(once.1, once.0, once.0) == once
  {
    var once := ApplyGlobalMask(settings, value, current);
    ApplyCurrentMask(once.1, once.0);
  }

  // ----------------------------------------------------------- bulk setters

  /** The two switches `bulk_set` is wired to. */
  datatype BulkField = CassetteField | VinylField

  /** `bulk_set`: the switch set on every track; switching vinyl off also
      resets the placement to the global mask as the window holds it. */
  function BulkSet(settings: map<string, TrackSettings>, field: BulkField, value: bool, globalMask: string): (r: map<string, TrackSettings>)
    ensures r.Keys == settings.Keys
    ensures forall k :: k in settings ==>
      && r[k].cassette == (if field == CassetteField then value else settings[k].cassette)
      && r[k].vinyl == (if field == VinylField then value else settings[k].vinyl)
      && r[k].placement == (if field == VinylField && !value then globalMask else settings[k].placement)
      && r[k].cover == settings[k].cover && r[k].bSide == settings[k].bSide
  {
    map k | k in settings ::
      match field
      case CassetteField => settings[k].(cassette := value)
      case VinylField => if value then settings[k].(vinyl := true) else settings[k].(vinyl := false, placement := globalMask)
  }

  /** Setting a switch twice is setting it once. */
  lemma BulkSetIdempotent(settings: map<string, TrackSettings>, field: BulkField, value: bool, globalMask: string)
    ensures BulkSet(BulkSet(settings, field, value, globalMask), field, value, globalMask) == BulkSet(settings, field, value, globalMask)
  {
    var once := BulkSet(settings, field, value, globalMask);
    var twice := BulkSet(once, field, value, globalMask);
    assert forall k :: k in twice ==> twice[k] == once[k];
  }

  /** The cassette and vinyl switches do not interfere. */
  lemma BulkSetCommutes(settings: map<string, TrackSettings>, c: bool, v: bool, globalMask: string)
    ensures BulkSet(BulkSet(settings, CassetteField, c, globalMask), VinylField, v, globalMask)
         == BulkSet(BulkSet(settings, VinylField, v, globalMask), CassetteField, c, globalMask)
  {
    var a := BulkSet(BulkSet(settings, CassetteField, c, globalMask), VinylField, v, globalMask);
    var b := BulkSet(BulkSet(settings, VinylField, v, globalMask), CassetteField, c, globalMask);
    assert forall k :: k in a ==> a[k] == b[k];
  }

  // ----------------------------------------------------------------- removal

  /** The list state that removal touches. */
  datatype SongList = SongList(rows: seq<Row>, settings: map<string, TrackSettings>, excluded: set<string>)

  /** The rows whose ogg is not excluded, in order. */
  function KeepRows(rows: seq<Row>, excluded: set<string>): (r: seq<Row>)
    ensures forall row :: row in r <==> row in rows && row.ogg !in excluded
    ensures |r| <= |rows|
  {
    if |rows| == 0 then []
    else (if rows[0].ogg in excluded then [] else [rows[0]]) + KeepRows(rows[1..], excluded)
  }

  /** `remove_selected_songs`: an empty selection changes nothing; otherwise
      the selected keys become excluded, lose their settings, and the list
      keeps only rows that are not excluded. */
  function RemoveSelected(s: SongList, selected: seq<string>): (r: SongList)
    ensures |selected| == 0 ==> r == s
    ensures |selected| > 0 ==>
      && r.excluded == s.excluded + set k | k in selected
      && r.settings.Keys == s.settings.Keys - set k | k in selected
      && (forall k :: k in r.settings ==> k in s.settings && r.settings[k] == s.settings[k])
      && (forall row :: row in r.rows <==> row in s.rows && row.ogg !in r.excluded)
  {
    if |selected| == 0 then s
    else
      var excluded := s.excluded + set k | k in selected;
      SongList(KeepRows(s.rows, excluded), map k | k in s.settings && k !in selected :: s.settings[k], excluded)
  }

  lemma {:induction false} KeepRowsSubsequence(rows: seq<Row>, excluded: set<string>)
    ensures IsSubsequence(KeepRows(rows, excluded), rows)
  {
    if |rows| > 0 {
      KeepRowsSubsequence(rows[1..], excluded);
      var rest := KeepRows(rows[1..], excluded);
      if rows[0].ogg in excluded {
        assert KeepRows(rows, excluded) == rest;
        SubsequenceExtend(rest, rows);
      } else {
        assert ([rows[0]] + rest)[1..] == rest;
      }
    }
  }

  lemma {:induction false} KeepRowsKept(rows: seq<Row>, excluded: set<string>)
    requires forall row :: row in rows ==> row.ogg !in excluded
    ensures KeepRows(rows, excluded) == rows
  {
    if |rows| > 0 {
      KeepRowsKept(rows[1..], excluded);
      assert rows == [rows[0]] + rows[1..];
    }
  }

  /** The remaining rows keep their order. */
  lemma RemoveSelectedOrder(s: SongList, selected: seq<string>)
    ensures IsSubsequence(RemoveSelected(s, selected).rows, s.rows)
  {
    if |selected| == 0 {
      PrefixIsSubsequence(s.rows, s.rows);
    } else {
      KeepRowsSubsequence(s.rows, s.excluded + set k | k in selected);
    }
  }

  /** Removing the same songs again changes nothing. */
  lemma RemoveSelectedIdempotent(s: SongList, selected: seq<string>)
    ensures RemoveSelected(RemoveSelected(s, selected), selected) == RemoveSelected(s, selected)
  {
    if |selected| > 0 {
      var once := RemoveSelected(s, selected);
      var twice := RemoveSelected(once, selected);
      KeepRowsKept(once.rows, once.excluded);
      assert twice.excluded == once.excluded;
      assert twice.settings == once.settings;
    }
  }

  // -------------------------------------------------------- generation counts

  /** The ogg names in the list. */
  function Present(rows: seq<Row>): set<string> {
    set row | row in rows :: row.ogg
  }

  predicate Selects(t: TrackSettings, vinyl: bool) {
    if vinyl then t.vinyl else t.cassette
  }

  /** The keys among `keys` that are listed and select the media type. */
  function Counted(settings: map<string, TrackSettings>, present: set<string>, keys: set<string>, vinyl: bool): set<string> {
    set k | k in keys && k in settings && k in present && Selects(settings[k], vinyl)
  }

  /** `_compute_generation_counts`: the listed songs that will be built for
      cassette and for vinyl; settings of songs no longer listed are not
      counted. */
  method GenerationCounts(rows: seq<Row>, settings: map<string, TrackSettings>) returns (cassettes: nat, vinyls: nat)
    ensures cassettes == |Counted(settings, Present(rows), settings.Keys, false)|
    ensures vinyls == |Counted(settings, Present(rows), settings.Keys, true)|
    ensures cassettes <= |Present(rows)| && vinyls <= |Present(rows)|
  {
    var present := Present(rows);
    var todo := settings.Keys;
    cassettes, vinyls := 0, 0;
    while todo != {}
      invariant todo <= settings.Keys
      invariant cassettes == |Counted(settings, present, settings.Keys - todo, false)|
      invariant vinyls == |Counted(settings, present, settings.Keys - todo, true)|
      decreases |todo|
    {
      var k :| k in todo;
      var done := settings.Keys - todo;
      CountedStep(settings, present, done, k, false);
      CountedStep(settings, present, done, k, true);
      assert settings.Keys - (todo - {k}) == done + {k};
      if k in present && settings[k].cassette {
        cassettes := cassettes + 1;
      }
      if k in present && settings[k].vinyl {
        vinyls := vinyls + 1;
      }
      todo := todo - {k};
    }
    assert settings.Keys - todo == settings.Keys;
    CountedWithin(settings, present, false);
    CountedWithin(settings, present, true);
  }

  lemma CountedStep(settings: map<string, TrackSettings>, present: set<string>, done: set<string>, k: string, vinyl: bool)
    requires k in settings && k !in done
    ensures |Counted(settings, present, done + {k}, vinyl)|
      == |Counted(settings, present, done, vinyl)| + if k in present && Selects(settings[k], vinyl) then 1 else 0
  {
    if k in present && Selects(settings[k], vinyl) {
      assert Counted(settings, present, done + {k}, vinyl) == Counted(settings, present, done, vinyl) + {k};
    } else {
      assert Counted(settings, present, done + {k}, vinyl) == Counted(settings, present, done, vinyl);
    }
  }

  lemma CountedWithin(settings: map<string, TrackSettings>, present: set<string>, vinyl: bool)
    ensures |Counted(settings, present, settings.Keys, vinyl)| <= |present|
  {
    assert Counted(settings, present, settings.Keys, vinyl) <= present;
    Workspace.SubsetSize(Counted(settings, present, settings.Keys, vinyl), present);
  }

  // ----------------------------------------------------------- order restore

  /** The last index of `name` in `order`. */
  function LastIndex(order: seq<string>, name: string): (i: nat)
    requires name in order
    ensures i < |order| && order[i] == name
    ensures forall j :: i < j < |order| ==> order[j] != name
  {
    if order[|order| - 1] == name then |order| - 1 else LastIndex(order[..|order| - 1], name)
  }

  /** The sort key of `_apply_snapshot`'s order restore: a name's last
      position in the saved order, and the number of distinct saved names
      for every other song. */
  function Rank(order: seq<string>, name: string): nat {
    if name in order then LastIndex(order, name) else |set x | x in order|
  }

  predicate RankLe(order: seq<string>, a: Row, b: Row) {
    Rank(order, a.ogg) <= Rank(order, b.ogg)
  }

  /** The song-order restore: a stable sort by rank when an order was saved. */
  function RestoreOrder(rows: seq<Row>, order: seq<string>): (r: seq<Row>)
    ensures multiset(r) == multiset(rows)
  {
    if |order| == 0 then rows else SortBy(rows, (a, b) => RankLe(order, a, b))
  }

  lemma RankLeTotal(order: seq<string>)
    ensures TotalPreorder((a, b) => RankLe(order, a, b))
  {
  }

  /** The rows come out by rank. */
  lemma RestoreOrderSorted(rows: seq<Row>, order: seq<string>)
    requires |order| > 0
    ensures Sorted(RestoreOrder(rows, order), (a, b) => RankLe(order, a, b))
  {
    RankLeTotal(order);
    SortBySorted(rows, (a, b) => RankLe(order, a, b));
  }

  /** Rows of equal rank keep their old order. */
  lemma RestoreOrderStable(rows: seq<Row>, order: seq<string>, z: Row)
    requires |order| > 0
    ensures Peers(RestoreOrder(rows, order), z, (a, b) => RankLe(order, a, b))
         == Peers(rows, z, (a, b) => RankLe(order, a, b))
  {
    RankLeTotal(order);
    SortByStable(rows, z, (a, b) => RankLe(order, a, b));
  }

  lemma {:induction false} DistinctCard(order: seq<string>)
    requires Distinct(order)
    ensures |set x | x in order| == |order|
  {
    if |order| > 0 {
      var init := order[..|order| - 1];
      var last := order[|order| - 1];
      DistinctCard(init);
      assert (set x | x in order) == (set x | x in init) + {last};
      assert last !in init;
    }
  }

  /** The rows not named in the saved order. */
  function Unnamed(rows: seq<Row>, order: seq<string>): seq<Row> {
    if |rows| == 0 then []
    else (if rows[0].ogg in order then [] else [rows[0]]) + Unnamed(rows[1..], order)
  }

  lemma {:induction false} UnnamedArePeers(rows: seq<Row>, order: seq<string>, z: Row)
    requires Distinct(order) && z.ogg !in order
    ensures Peers(rows, z, (a, b) => RankLe(order, a, b)) == Unnamed(rows, order)
  {
    DistinctCard(order);
    if |rows| > 0 {
      UnnamedArePeers(rows[1..], order, z);
    }
  }

  /** With no name saved twice, named rows come first in the saved order and
      the others follow in their old relative order. */
  lemma RestoreOrderNamedFirst(rows: seq<Row>, order: seq<string>)
    requires |order| > 0 && Distinct(order)
    ensures var r := RestoreOrder(rows, order);
      forall i, j :: 0 <= i < j < |r| && r[j].ogg in order ==>
        r[i].ogg in order && LastIndex(order, r[i].ogg) <= LastIndex(order, r[j].ogg)
    ensures Unnamed(RestoreOrder(rows, order), order) == Unnamed(rows, order)
  {
    var r := RestoreOrder(rows, order);
    RestoreOrderSorted(rows, order);
    DistinctCard(order);
    forall i, j | 0 <= i < j < |r| && r[j].ogg in order
      ensures r[i].ogg in order && LastIndex(order, r[i].ogg) <= LastIndex(order, r[j].ogg)
    {
      assert RankLe(order, r[i], r[j]);
    }
    var z := Row(Unused(order), "", "");
    RestoreOrderStable(rows, order, z);
    UnnamedArePeers(r, order, z);
    UnnamedArePeers(rows, order, z);
  }

  /** A name that is not in `order`: longer than all of them. */
  function Unused(order: seq<string>): (u: string)
    ensures u !in order
  {
    var u := seq(MaxLen(order) + 1, _ => 'x');
    assert forall i :: 0 <= i < |order| ==> |order[i]| < |u| by {
      MaxLenBound(order);
    }
    u
  }

  function MaxLen(xs: seq<string>): nat {
    if |xs| == 0 then 0 else var m := MaxLen(xs[1..]); if |xs[0]| > m then |xs[0]| else m
  }

  lemma {:induction false} MaxLenBound(xs: seq<string>)
    ensures forall i :: 0 <= i < |xs| ==> |xs[i]| <= MaxLen(xs)
  {
    if |xs| > 0 {
      MaxLenBound(xs[1..]);
      assert forall i :: 1 <= i < |xs| ==> xs[i] == xs[1..][i - 1];
    }
  }

  // ----------------------------------------------------------- column sort

  /** A column's sort key: lower-cased text, or a 0/1 switch. A column's
      keys are all of one kind. */
  datatype SortKey = Text(s: string) | Flag(n: int)

  predicate KeyLe(a: SortKey, b: SortKey) {
    match (a, b)
    case (Flag(x), Flag(y)) => x <= y
    case (Text(x), Text(y)) => StrLe(x, y)
    case (Flag(_), Text(_)) => true
    case (Text(_), Flag(_)) => false
  }

  function Bit(b: bool): int {
    if b then 1 else 0
  }

  /** The key `sort_by_column` gives a row for column `col`; a song without
      settings counts as having every switch off and no cover. */
  function ColumnKey(col: string, row: Row, settings: map<string, TrackSettings>): SortKey {
    var has := row.ogg in settings;
    if col == "source" then Text(Lower(row.source))
    else if col == "status" then Text(Lower(row.status))
    else if col == "cassette" then Flag(Bit(has && settings[row.ogg].cassette))
    else if col == "vinyl" then Flag(Bit(has && settings[row.ogg].vinyl))
    else if col == "bside" then Flag(Bit(has && settings[row.ogg].bSide != ""))
    else if col == "cover" then
      Text(if has && settings[row.ogg].cover != "" then Lower(PathName(settings[row.ogg].cover)) else "")
    else Text(Lower(row.source))
  }

  /** Row order for one column and direction; descending reverses every
      comparison, as Python's `reverse=True` does. */
  predicate ColumnLe(col: string, settings: map<string, TrackSettings>, ascending: bool, a: Row, b: Row) {
    var ka := ColumnKey(col, a, settings);
    var kb := ColumnKey(col, b, settings);
    if ascending then KeyLe(ka, kb) else KeyLe(kb, ka)
  }

  /** `sort_by_column`: the column's direction flips, starting descending on
      the first click, and the rows are stably sorted that way. */
  function SortByColumn(state: map<string, bool>, col: string, rows: seq<Row>, settings: map<string, TrackSettings>): (r: (map<string, bool>, seq<Row>))
    ensures col in r.0
    ensures col !in state ==> !r.0[col]
    ensures col in state ==> r.0[col] == !state[col]
    ensures forall c :: c != col ==> (c in r.0 <==> c in state)
    ensures forall c :: c != col && c in state ==> r.0[c] == state[c]
    ensures multiset(r.1) == multiset(rows)
  {
    var ascending := !(if col in state then state[col] else true);
    (state[col := ascending], SortBy(rows, (a, b) => ColumnLe(col, settings, ascending, a, b)))
  }

  lemma KeyLeTotal(a: SortKey, b: SortKey)
    ensures KeyLe(a, b) || KeyLe(b, a)
  {
    if a.Text? && b.Text? {
      StrLeTotal(a.s, b.s);
    }
  }

  lemma KeyLeTrans(a: SortKey, b: SortKey, c: SortKey)
    requires KeyLe(a, b) && KeyLe(b, c)
    ensures KeyLe(a, c)
  {
    if a.Text? && b.Text? && c.Text? {
      StrLeTrans(a.s, b.s, c.s);
    }
  }

  lemma ColumnLeTotal(col: string, settings: map<string, TrackSettings>, ascending: bool)
    ensures TotalPreorder((a, b) => ColumnLe(col, settings, ascending, a, b))
  {
    forall a: Row, b: Row ensures ColumnLe(col, settings, ascending, a, b) || ColumnLe(col, settings, ascending, b, a) {
      KeyLeTotal(ColumnKey(col, a, settings), ColumnKey(col, b, settings));
    }
    forall a: Row, b: Row, c: Row | ColumnLe(col, settings, ascending, a, b) && ColumnLe(col, settings, ascending, b, c)
      ensures ColumnLe(col, settings, ascending, a, c)
    {
      var ka, kb, kc := ColumnKey(col, a, settings), ColumnKey(col, b, settings), ColumnKey(col, c, settings);
      if ascending {
        KeyLeTrans(ka, kb, kc);
      } else {
        KeyLeTrans(kc, kb, ka);
      }
    }
  }

  /** The rows come out ordered by the column in the new direction. */
  lemma SortByColumnSorted(state: map<string, bool>, col: string, rows: seq<Row>, settings: map<string, TrackSettings>)
    ensures var r := SortByColumn(state, col, rows, settings);
      Sorted(r.1, (a, b) => ColumnLe(col, settings, r.0[col], a, b))
  {
    var r := SortByColumn(state, col, rows, settings);
    ColumnLeTotal(col, settings, r.0[col]);
    SortBySorted(rows, (a, b) => ColumnLe(col, settings, r.0[col], a, b));
  }

  /** Rows with equal keys keep their old order, in either direction. */
  lemma SortByColumnStable(state: map<string, bool>, col: string, rows: seq<Row>, settings: map<string, TrackSettings>, z: Row)
    ensures var r := SortByColumn(state, col, rows, settings);
      Peers(r.1, z, (a, b) => ColumnLe(col, settings, r.0[col], a, b))
        == Peers(rows, z, (a, b) => ColumnLe(col, settings, r.0[col], a, b))
  {
    var r := SortByColumn(state, col, rows, settings);
    ColumnLeTotal(col, settings, r.0[col]);
    SortByStable(rows, z, (a, b) => ColumnLe(col, settings, r.0[col], a, b));
  }
}
