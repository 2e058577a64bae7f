/** The track partition of the mixed build: each configured track whose ogg
    file exists goes to the cassette list, the vinyl list, or both, with its
    cover (or a random one), B-side and vinyl art placement. */
module BuildPlan {
  import opened Results
  import opened Names

  /** One track's settings; an empty cover or B-side means none was set,
      and `placement` is None when the setting is missing. */
  datatype TrackMode = TrackMode(cassette: bool, vinyl: bool, cover: string, bSide: string, placement: Option<string>)

  /** The build's inputs per media type, keyed by ogg file name. */
  datatype Plan = Plan(
    cassetteOggs: seq<string>, vinylOggs: seq<string>,
    cassetteCovers: map<string, string>, vinylCovers: map<string, string>,
    cassetteBSides: map<string, string>, vinylBSides: map<string, string>,
    cassetteRandom: set<string>, vinylRandom: set<string>,
    placements: map<string, string>)

  const EmptyPlan := Plan([], [], map[], map[], map[], map[], {}, {}, map[])

  const NothingSelected: string := "No songs selected for cassette or vinyl build."

  /** The placement setting, "inside" when missing, blank or unrecognised. */
  function PlacementOf(m: TrackMode): (r: string)
    ensures r == Inside || r == Outside
    ensures m.placement.None? ==> r == Inside
    ensures m.placement.Some? ==> r == ParsePlacement(m.placement.value, Inside)
  {
    CanonicalPlacements(Inside);
    ParsePlacement(if m.placement.Some? then m.placement.value else Inside, Inside)
  }

  function Setting(s: string): Option<string> {
    if s != "" then Some(s) else None
  }

  /** One loop iteration for track `name`, whose ogg file is `ogg`. */
  function AddTrack(p: Plan, name: string, ogg: string, m: TrackMode): Plan {
    var p1 :=
      if !m.cassette then p
      else p.(
        cassetteOggs := p.cassetteOggs + [ogg],
        cassetteCovers := if m.cover != "" then p.cassetteCovers[name := m.cover] else p.cassetteCovers,
        cassetteRandom := if m.cover != "" then p.cassetteRandom else p.cassetteRandom + {name},
        cassetteBSides := if m.bSide != "" then p.cassetteBSides[name := m.bSide] else p.cassetteBSides);
    if !m.vinyl then p1
    else p1.(
      vinylOggs := p1.vinylOggs + [ogg],
      vinylCovers := if m.cover != "" then p1.vinylCovers[name := m.cover] else p1.vinylCovers,
      vinylRandom := if m.cover != "" then p1.vinylRandom else p1.vinylRandom + {name},
      vinylBSides := if m.bSide != "" then p1.vinylBSides[name := m.bSide] else p1.vinylBSides,
      placements := p1.placements[name := PlacementOf(m)])
  }

  /** The loop over the configured tracks, skipping names without an ogg. */
  function Partition(modes: seq<(string, TrackMode)>, oggByName: map<string, string>): Plan {
    if |modes| == 0 then EmptyPlan
    else
      var pre := Partition(modes[..|modes| - 1], oggByName);
      var (name, m) := modes[|modes| - 1];
      if name in oggByName then AddTrack(pre, name, oggByName[name], m) else pre
  }

  /** `build_mixed_from_config`'s partition, which fails when nothing was
      selected. */
  function PlanTracks(modes: seq<(string, TrackMode)>, oggByName: map<string, string>): (r: Result<Plan>)
    ensures r.Err? ==> r.msg == NothingSelected
    ensures r.Ok? ==> |r.value.cassetteOggs| + |r.value.vinylOggs| > 0
  {
    var p := Partition(modes, oggByName);
    if |p.cassetteOggs| == 0 && |p.vinylOggs| == 0 then Err(NothingSelected) else Ok(p)
  }

  /** Everything a plan's maps and sets hold about one track name. */
  datatype NameView = NameView(
    cassetteCover: Option<string>, cassetteRandom: bool, cassetteBSide: Option<string>,
    vinylCover: Option<string>, vinylRandom: bool, vinylBSide: Option<string>,
    placement: Option<string>)

  const Unset := NameView(None, false, None, None, false, None, None)

  function Lookup(m: map<string, string>, k: string): Option<string> {
    if k in m then Some(m[k]) else None
  }

  function ViewOf(p: Plan, name: string): NameView {
    NameView(
      Lookup(p.cassetteCovers, name), name in p.cassetteRandom, Lookup(p.cassetteBSides, name),
      Lookup(p.vinylCovers, name), name in p.vinylRandom, Lookup(p.vinylBSides, name),
      Lookup(p.placements, name))
  }

  /** What the build should record for a track, read off its settings alone:
      nothing without an ogg file or for a media type it does not select;
      otherwise its cover, or a random cover when none is set, its B-side
      when one is set, and for vinyl its art placement. */
  function Expected(m: TrackMode, known: bool): (v: NameView)
    ensures !known ==> v == Unset
    ensures v.cassetteCover.Some? || v.cassetteRandom <==> known && m.cassette
    ensures v.vinylCover.Some? || v.vinylRandom <==> known && m.vinyl
    ensures !(v.cassetteCover.Some? && v.cassetteRandom) && !(v.vinylCover.Some? && v.vinylRandom)
    ensures v.placement.Some? <==> known && m.vinyl
    ensures v.placement.Some? ==> v.placement.value in {Inside, Outside}
  {
    var c := known && m.cassette;
    var w := known && m.vinyl;
    NameView(
      if c then Setting(m.cover) else None, c && m.cover == "", if c then Setting(m.bSide) else None,
      if w then Setting(m.cover) else None, w && m.cover == "", if w then Setting(m.bSide) else None,
      if w then Some(PlacementOf(m)) else None)
  }

  lemma AddTrackOther(p: Plan, name: string, ogg: string, m: TrackMode, other: string)
    requires other != name
    ensures ViewOf(AddTrack(p, name, ogg, m), other) == ViewOf(p, other)
  {
  }

  lemma AddTrackSame(p: Plan, name: string, ogg: string, m: TrackMode)
    requires ViewOf(p, name) == Unset
    ensures ViewOf(AddTrack(p, name, ogg, m), name) == Expected(m, true)
  {
  }

  /** A name that no configured track carries is absent from every map and set. */
  lemma {:induction false} PartitionUnseen(modes: seq<(string, TrackMode)>, oggByName: map<string, string>, name: string)
    requires forall k :: 0 <= k < |modes| ==> modes[k].0 != name
    ensures ViewOf(Partition(modes, oggByName), name) == Unset
  {
    if |modes| > 0 {
      var last := |modes| - 1;
      PartitionUnseen(modes[..last], oggByName, name);
      if modes[last].0 in oggByName {
        AddTrackOther(Partition(modes[..last], oggByName), modes[last].0, oggByName[modes[last].0], modes[last].1, name);
      }
    }
  }

  predicate DistinctNames(modes: seq<(string, TrackMode)>) {
    forall i, j :: 0 <= i < j < |modes| ==> modes[i].0 != modes[j].0
  }

  /** With distinct track names (the configuration is a JSON object), the
      build records for every track exactly what its own settings ask. */
  lemma {:induction false} PartitionRecords(modes: seq<(string, TrackMode)>, oggByName: map<string, string>)
    requires DistinctNames(modes)
    ensures forall k :: 0 <= k < |modes| ==>
      ViewOf(Partition(modes, oggByName), modes[k].0) == Expected(modes[k].1, modes[k].0 in oggByName)
  {
    if |modes| > 0 {
      var last := |modes| - 1;
      var pre := modes[..last];
      var q := Partition(pre, oggByName);
      var (name, m) := modes[last];
      PartitionRecords(pre, oggByName);
      forall k | 0 <= k < |modes|
        ensures ViewOf(Partition(modes, oggByName), modes[k].0) == Expected(modes[k].1, modes[k].0 in oggByName)
      {
        if k < last {
          assert modes[k] == pre[k];
          if name in oggByName {
            AddTrackOther(q, name, oggByName[name], m, modes[k].0);
          }
        } else {
          forall j | 0 <= j < |pre| ensures pre[j].0 != name {
            assert modes[j] == pre[j];
          }
          PartitionUnseen(pre, oggByName, name);
          if name in oggByName {
            AddTrackSame(q, name, oggByName[name], m);
          }
        }
      }
    }
  }

  /** The ogg list of one media type. */
  function Oggs(p: Plan, vinyl: bool): seq<string> {
    if vinyl then p.vinylOggs else p.cassetteOggs
  }

  lemma AddTrackOggs(p: Plan, name: string, ogg: string, m: TrackMode, vinyl: bool)
    ensures Oggs(AddTrack(p, name, ogg, m), vinyl)
      == Oggs(p, vinyl) + if (if vinyl then m.vinyl else m.cassette) then [ogg] else []
  {
  }

  /** Track `k` has ogg file `o` and selects the media type. */
  predicate Picks(modes: seq<(string, TrackMode)>, oggByName: map<string, string>, vinyl: bool, k: int, o: string) {
    && 0 <= k < |modes| && modes[k].0 in oggByName && o == oggByName[modes[k].0]
    && (if vinyl then modes[k].1.vinyl else modes[k].1.cassette)
  }

  /** The ogg lists hold exactly the ogg files of the tracks that select
      each media type. */
  lemma {:induction false} PartitionOggs(modes: seq<(string, TrackMode)>, oggByName: map<string, string>, vinyl: bool, o: string)
    ensures o in Oggs(Partition(modes, oggByName), vinyl) <==> exists k :: Picks(modes, oggByName, vinyl, k, o)
  {
    if |modes| > 0 {
      var last := |modes| - 1;
      var pre := modes[..last];
      PartitionOggs(pre, oggByName, vinyl, o);
      var (name, m) := modes[last];
      var q := Partition(pre, oggByName);
      if name in oggByName {
        assert Partition(modes, oggByName) == AddTrack(q, name, oggByName[name], m);
        AddTrackOggs(q, name, oggByName[name], m, vinyl);
        if (if vinyl then m.vinyl else m.cassette) && o == oggByName[name] {
          assert Picks(modes, oggByName, vinyl, last, o);
        }
      } else {
        assert Partition(modes, oggByName) == q;
      }
      if exists k :: Picks(pre, oggByName, vinyl, k, o) {
        var k :| Picks(pre, oggByName, vinyl, k, o);
        assert Picks(modes, oggByName, vinyl, k, o);
      }
      if exists k :: Picks(modes, oggByName, vinyl, k, o) {
        var k :| Picks(modes, oggByName, vinyl, k, o);
        if k < last {
          assert Picks(pre, oggByName, vinyl, k, o);
        }
      }
    }
  }

  /** The build fails exactly when no track with an ogg file selects a
      cassette or a vinyl. */
  lemma PlanTracksFails(modes: seq<(string, TrackMode)>, oggByName: map<string, string>)
    ensures PlanTracks(modes, oggByName).Err? <==>
      forall k :: 0 <= k < |modes| && modes[k].0 in oggByName ==> !modes[k].1.cassette && !modes[k].1.vinyl
  {
    var p := Partition(modes, oggByName);
    if |p.cassetteOggs| > 0 {
      PartitionOggs(modes, oggByName, false, p.cassetteOggs[0]);
    } else if |p.vinylOggs| > 0 {
      PartitionOggs(modes, oggByName, true, p.vinylOggs[0]);
    } else {
      forall k | 0 <= k < |modes| && modes[k].0 in oggByName
        ensures !modes[k].1.cassette && !modes[k].1.vinyl
      {
        PartitionOggs(modes, oggByName, false, oggByName[modes[k].0]);
        PartitionOggs(modes, oggByName, true, oggByName[modes[k].0]);
        assert !Picks(modes, oggByName, false, k, oggByName[modes[k].0]);
        assert !Picks(modes, oggByName, true, k, oggByName[modes[k].0]);
      }
    }
  }
}
