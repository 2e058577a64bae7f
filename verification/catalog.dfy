/** The song catalog: entries that land on the same cache file name are
    merged keeping the best-scored one, and the catalog is listed by source
    name ignoring case. Also the cache-first merge of available ogg files.
    File listings and modification times are inputs. */
module Catalog {
  import opened Results
  import opened Strings
  import opened Names
  import opened Sorting

  datatype Status = Ready | Stale | NeedsConvert

  /** `status_rank`: ready 3, stale 2, needs convert 1. */
  function StatusRank(s: Status): nat {
    match s
    case Ready => 3
    case Stale => 2
    case NeedsConvert => 1
  }

  /** One catalog row: the source file's name, its modification time (0.0
      when the file is missing), the cache file's name, status and detail. */
  datatype Entry = Entry(source: string, sourceMtime: real, ogg: string, status: Status, detail: string)

  predicate IsOggName(name: string) {
    Lower(Suffix(name)) == ".ogg"
  }

  function OggFlag(e: Entry): int {
    if IsOggName(e.source) then 1 else 0
  }

  /** Python's `>` on the score tuple (source is .ogg, status rank, mtime). */
  predicate Beats(a: Entry, b: Entry) {
    || OggFlag(a) > OggFlag(b)
    || (OggFlag(a) == OggFlag(b) && StatusRank(a.status) > StatusRank(b.status))
    || (OggFlag(a) == OggFlag(b) && StatusRank(a.status) == StatusRank(b.status) && a.sourceMtime > b.sourceMtime)
  }

  /** Where `key` sits in the merged rows. */
  function KeyIndex(rows: seq<Entry>, key: string): (r: Option<nat>)
    ensures r.Some? ==> r.value < |rows| && rows[r.value].ogg == key
    ensures r.None? ==> forall i :: 0 <= i < |rows| ==> rows[i].ogg != key
  {
    if |rows| == 0 then None
    else if rows[|rows| - 1].ogg == key then Some(|rows| - 1)
    else KeyIndex(rows[..|rows| - 1], key)
  }

  /** One step of the merge loop: a new key is appended; a known key's row
      is replaced only by a strictly better entry, keeping its place. */
  function Put(rows: seq<Entry>, e: Entry): seq<Entry> {
    var k := KeyIndex(rows, e.ogg);
    if k.None? then rows + [e]
    else if Beats(e, rows[k.value]) then rows[k.value := e]
    else rows
  }

  /** The merge over all raw entries, in order. */
  function Dedup(xs: seq<Entry>): seq<Entry> {
    if |xs| == 0 then [] else Put(Dedup(xs[..|xs| - 1]), xs[|xs| - 1])
  }

  predicate UniqueKeys(rows: seq<Entry>) {
    forall i, j :: 0 <= i < j < |rows| ==> rows[i].ogg != rows[j].ogg
  }

  /** `e` is the first of the entries for its key with the best score: none
      beats it, and it beats every earlier one. */
  predicate FirstBest(xs: seq<Entry>, e: Entry) {
    && (forall j :: 0 <= j < |xs| && xs[j].ogg == e.ogg ==> !Beats(xs[j], e))
    && exists p :: 0 <= p < |xs| && xs[p] == e && forall j :: 0 <= j < p && xs[j].ogg == e.ogg ==> Beats(e, xs[j])
  }

  lemma BeatsTrans(a: Entry, b: Entry, c: Entry)
    requires Beats(a, b) && Beats(b, c)
    ensures Beats(a, c)
  {
  }

  lemma BeatsPast(a: Entry, b: Entry, c: Entry)
    requires !Beats(a, b) && Beats(c, b)
    ensures Beats(c, a)
  {
  }

  /** The merged rows have one row per key seen. */
  lemma {:induction false} DedupCoversKeys(xs: seq<Entry>)
    ensures UniqueKeys(Dedup(xs))
    ensures forall j :: 0 <= j < |xs| ==> KeyIndex(Dedup(xs), xs[j].ogg).Some?
  {
    if |xs| > 0 {
      var pre := xs[..|xs| - 1];
      var x := xs[|xs| - 1];
      var acc := Dedup(pre);
      DedupCoversKeys(pre);
      assert Dedup(xs) == Put(acc, x);
      PutKeys(acc, x);
      forall j | 0 <= j < |xs|
        ensures KeyIndex(Put(acc, x), xs[j].ogg).Some?
      {
        if j < |xs| - 1 {
          assert xs[j] == pre[j];
        }
      }
    }
  }

  /** A merge step keeps the keys unique, keeps every key it had and adds
      the new entry's key. */
  lemma PutKeys(acc: seq<Entry>, x: Entry)
    requires UniqueKeys(acc)
    ensures UniqueKeys(Put(acc, x))
    ensures forall key :: KeyIndex(acc, key).Some? ==> KeyIndex(Put(acc, x), key).Some?
    ensures KeyIndex(Put(acc, x), x.ogg).Some?
  {
    var out := Put(acc, x);
    var k := KeyIndex(acc, x.ogg);
    forall key | KeyIndex(acc, key).Some?
      ensures KeyIndex(out, key).Some?
    {
      var q := KeyIndex(acc, key).value;
      assert out[q].ogg == key;
    }
    var q := if k.None? then |acc| else k.value;
    assert out[q].ogg == x.ogg;
  }

  /** Each merged row is the first best-scored entry for its key. */
  lemma {:induction false} DedupKeepsBest(xs: seq<Entry>)
    ensures forall i :: 0 <= i < |Dedup(xs)| ==> FirstBest(xs, Dedup(xs)[i])
  {
    if |xs| > 0 {
      DedupKeepsBest(xs[..|xs| - 1]);
      DedupCoversKeys(xs[..|xs| - 1]);
      DedupStepBest(xs, xs[..|xs| - 1]);
    }
  }

  /** The step of `DedupKeepsBest` for the last entry of `xs`. */
  lemma DedupStepBest(xs: seq<Entry>, pre: seq<Entry>)
    requires |xs| > 0 && pre == xs[..|xs| - 1]
    requires UniqueKeys(Dedup(pre))
    requires forall j :: 0 <= j < |pre| ==> KeyIndex(Dedup(pre), pre[j].ogg).Some?
    requires forall i :: 0 <= i < |Dedup(pre)| ==> FirstBest(pre, Dedup(pre)[i])
    ensures forall i :: 0 <= i < |Dedup(xs)| ==> FirstBest(xs, Dedup(xs)[i])
  {
    var x := xs[|xs| - 1];
    var acc := Dedup(pre);
    SplitLast(xs);
    forall i | 0 <= i < |Put(acc, x)|
      ensures FirstBest(pre + [x], Put(acc, x)[i])
    {
      PutRowBest(pre, acc, x, i);
    }
  }

  /** After one merge step every row is still the first best one. */
  lemma PutRowBest(pre: seq<Entry>, acc: seq<Entry>, x: Entry, i: nat)
    requires UniqueKeys(acc)
    requires forall j :: 0 <= j < |pre| ==> KeyIndex(acc, pre[j].ogg).Some?
    requires forall i :: 0 <= i < |acc| ==> FirstBest(pre, acc[i])
    requires i < |Put(acc, x)|
    ensures FirstBest(pre + [x], Put(acc, x)[i])
  {
    var out := Put(acc, x);
    var k := KeyIndex(acc, x.ogg);
    if k.None? || !Beats(x, acc[k.value]) {
      if i < |acc| {
        assert out[i] == acc[i];
        KeptRowStaysBest(pre, acc, x, i);
      } else {
        NewRowIsBest(pre, acc, x);
      }
    } else if i == k.value {
      NewRowIsBest(pre, acc, x);
    } else {
      assert out[i] == acc[i];
      KeptRowStaysBest(pre, acc, x, i);
    }
  }

  /** A row the new entry does not displace stays the first best one. */
  lemma KeptRowStaysBest(pre: seq<Entry>, acc: seq<Entry>, x: Entry, i: nat)
    requires UniqueKeys(acc) && i < |acc|
    requires forall i :: 0 <= i < |acc| ==> FirstBest(pre, acc[i])
    requires acc[i].ogg == x.ogg ==> !Beats(x, acc[i])
    ensures FirstBest(pre + [x], acc[i])
  {
    var xs := pre + [x];
    var e := acc[i];
    var p :| 0 <= p < |pre| && pre[p] == e && forall j :: 0 <= j < p && pre[j].ogg == e.ogg ==> Beats(e, pre[j]);
    assert xs[p] == e;
    forall j | 0 <= j < |xs| && xs[j].ogg == e.ogg
      ensures !Beats(xs[j], e)
    {
      if j < |pre| {
        assert xs[j] == pre[j];
      }
    }
  }

  /** An entry that is new or beats its key's row becomes the first best
      one. */
  lemma NewRowIsBest(pre: seq<Entry>, acc: seq<Entry>, x: Entry)
    requires UniqueKeys(acc)
    requires forall j :: 0 <= j < |pre| ==> KeyIndex(acc, pre[j].ogg).Some?
    requires forall i :: 0 <= i < |acc| ==> FirstBest(pre, acc[i])
    requires KeyIndex(acc, x.ogg).Some? ==> Beats(x, acc[KeyIndex(acc, x.ogg).value])
    ensures FirstBest(pre + [x], x)
  {
    forall j | 0 <= j < |pre| && pre[j].ogg == x.ogg
      ensures Beats(x, pre[j]) && !Beats(pre[j], x)
    {
      BeatsEarlier(pre, acc, x, j);
    }
    LastIsFirstBest(pre, x);
  }

  /** An entry that beats every earlier entry for its key, and is beaten by
      none, is the first best one once appended. */
  lemma LastIsFirstBest(pre: seq<Entry>, x: Entry)
    requires forall j :: 0 <= j < |pre| && pre[j].ogg == x.ogg ==> Beats(x, pre[j]) && !Beats(pre[j], x)
    ensures FirstBest(pre + [x], x)
  {
    var xs := pre + [x];
    var last := |xs| - 1;
    assert xs[last] == x;
    assert forall j :: 0 <= j < last ==> xs[j] == pre[j];
    assert !Beats(x, x);
  }

  /** An entry that beats its key's row beats every earlier entry for the
      key. */
  lemma BeatsEarlier(pre: seq<Entry>, acc: seq<Entry>, x: Entry, j: nat)
    requires UniqueKeys(acc)
    requires forall j :: 0 <= j < |pre| ==> KeyIndex(acc, pre[j].ogg).Some?
    requires forall i :: 0 <= i < |acc| ==> FirstBest(pre, acc[i])
    requires KeyIndex(acc, x.ogg).Some? ==> Beats(x, acc[KeyIndex(acc, x.ogg).value])
    requires j < |pre| && pre[j].ogg == x.ogg
    ensures Beats(x, pre[j]) && !Beats(pre[j], x)
  {
    var q := KeyIndex(acc, pre[j].ogg).value;
    assert FirstBest(pre, acc[q]);
    assert !Beats(pre[j], acc[q]);
    BeatsPast(pre[j], acc[q], x);
  }

  /** Python's `<=` on the lower-cased source names. */
  predicate SourceLe(a: Entry, b: Entry) {
    StrLe(Lower(a.source), Lower(b.source))
  }

  lemma SourceLeTotalPreorder()
    ensures TotalPreorder(SourceLe)
  {
    forall a: Entry, b: Entry
      ensures SourceLe(a, b) || SourceLe(b, a)
    {
      StrLeTotal(Lower(a.source), Lower(b.source));
    }
    forall a: Entry, b: Entry, c: Entry | SourceLe(a, b) && SourceLe(b, c)
      ensures SourceLe(a, c)
    {
      StrLeTrans(Lower(a.source), Lower(b.source), Lower(c.source));
    }
  }

  /** `refresh_song_catalog`'s result: the merged rows listed by source
      name, ignoring case; rows with equal names keep merge order. */
  function RefreshCatalog(raw: seq<Entry>): (r: seq<Entry>)
    ensures multiset(r) == multiset(Dedup(raw))
  {
    SortBy(Dedup(raw), SourceLe)
  }

  /** The catalog lists each cache name once, with its first best-scored
      entry, in case-insensitive source-name order. */
  lemma RefreshCatalogSpec(raw: seq<Entry>)
    ensures var r := RefreshCatalog(raw);
      && Sorted(r, SourceLe)
      && (forall i :: 0 <= i < |r| ==> FirstBest(raw, r[i]))
      && (forall j :: 0 <= j < |raw| ==> exists i :: 0 <= i < |r| && r[i].ogg == raw[j].ogg)
      && UniqueKeys(r)
  {
    var out := Dedup(raw);
    var r := RefreshCatalog(raw);
    SourceLeTotalPreorder();
    SortBySorted(out, SourceLe);
    CatalogRowsBest(raw);
    CatalogCoversKeys(raw);
    DedupCoversKeys(raw);
    forall i, j | 0 <= i < j < |r|
      ensures r[i].ogg != r[j].ogg
    {
      SameKeyDistinctRows(out, r, i, j);
    }
  }

  lemma CatalogRowsBest(raw: seq<Entry>)
    ensures var r := RefreshCatalog(raw); forall i :: 0 <= i < |r| ==> FirstBest(raw, r[i])
  {
    var out := Dedup(raw);
    var r := RefreshCatalog(raw);
    DedupKeepsBest(raw);
    forall i | 0 <= i < |r|
      ensures FirstBest(raw, r[i])
    {
      assert r[i] in multiset(out);
      var q :| 0 <= q < |out| && out[q] == r[i];
    }
  }

  lemma CatalogCoversKeys(raw: seq<Entry>)
    ensures var r := RefreshCatalog(raw);
      forall j :: 0 <= j < |raw| ==> exists i :: 0 <= i < |r| && r[i].ogg == raw[j].ogg
  {
    var out := Dedup(raw);
    var r := RefreshCatalog(raw);
    DedupCoversKeys(raw);
    forall j | 0 <= j < |raw|
      ensures exists i :: 0 <= i < |r| && r[i].ogg == raw[j].ogg
    {
      var q := KeyIndex(out, raw[j].ogg).value;
      assert out[q] in multiset(r);
      var i :| 0 <= i < |r| && r[i] == out[q];
    }
  }

  /** Two positions of a permutation of unique-keyed rows hold different
      keys. */
  lemma SameKeyDistinctRows(out: seq<Entry>, r: seq<Entry>, i: nat, j: nat)
    requires UniqueKeys(out) && multiset(r) == multiset(out)
    requires i < j < |r|
    ensures r[i].ogg != r[j].ogg
  {
    if r[i].ogg == r[j].ogg {
      assert r[i] in multiset(out) && r[j] in multiset(out);
      var a :| 0 <= a < |out| && out[a] == r[i];
      var b :| 0 <= b < |out| && out[b] == r[j];
      assert a == b;
      assert multiset(r)[r[i]] >= 2 by {
        assert r == r[..i] + [r[i]] + r[i + 1..j] + [r[j]] + r[j + 1..];
      }
      OccursOnce(out, a);
    }
  }

  /** An element different from all others occurs once. */
  lemma OccursOnce<T>(xs: seq<T>, a: nat)
    requires a < |xs| && forall b :: 0 <= b < |xs| && b != a ==> xs[b] != xs[a]
    ensures multiset(xs)[xs[a]] == 1
  {
    assert xs == xs[..a] + [xs[a]] + xs[a + 1..];
  }

  /** Which folder an available ogg file was taken from. */
  datatype Folder = CacheFolder | SourceFolder

  datatype OggFile = OggFile(folder: Folder, name: string)

  predicate UniqueNames(rows: seq<OggFile>) {
    forall i, j :: 0 <= i < j < |rows| ==> rows[i].name != rows[j].name
  }

  function NameIndex(rows: seq<OggFile>, name: string): (r: Option<nat>)
    ensures r.Some? ==> r.value < |rows| && rows[r.value].name == name
    ensures r.None? ==> forall i :: 0 <= i < |rows| ==> rows[i].name != name
  {
    if |rows| == 0 then None
    else if rows[|rows| - 1].name == name then Some(|rows| - 1)
    else NameIndex(rows[..|rows| - 1], name)
  }

  /** The cache pass: `by_name[p.name] = p` for each cached ogg. */
  function CacheRows(names: seq<string>): (rows: seq<OggFile>)
    ensures UniqueNames(rows)
    ensures forall f :: f in rows <==> f.folder == CacheFolder && f.name in names && IsOggName(f.name)
  {
    if |names| == 0 then []
    else
      var pre := CacheRows(names[..|names| - 1]);
      var n := names[|names| - 1];
      var f := OggFile(CacheFolder, n);
      var k := NameIndex(pre, n);
      var rows :=
        if !IsOggName(n) then pre
        else if k.Some? then pre[k.value := f]
        else pre + [f];
      CacheStep(names, pre, rows);
      rows
  }

  /** One step of the cache pass keeps one row per name, and the rows are
      the cached oggs of the names so far. */
  lemma CacheStep(names: seq<string>, pre: seq<OggFile>, rows: seq<OggFile>)
    requires |names| > 0
    requires UniqueNames(pre)
    requires forall f :: f in pre <==> f.folder == CacheFolder && f.name in names[..|names| - 1] && IsOggName(f.name)
    requires var n := names[|names| - 1];
      var k := NameIndex(pre, n);
      rows ==
        if !IsOggName(n) then pre
        else if k.Some? then pre[k.value := OggFile(CacheFolder, n)]
        else pre + [OggFile(CacheFolder, n)]
    ensures UniqueNames(rows)
    ensures forall f :: f in rows <==> f.folder == CacheFolder && f.name in names && IsOggName(f.name)
  {
    var n := names[|names| - 1];
    var f := OggFile(CacheFolder, n);
    assert names == names[..|names| - 1] + [n];
    var k := NameIndex(pre, n);
    if IsOggName(n) {
      if k.Some? {
        assert pre[k.value] in pre;
        assert pre[k.value := f] == pre;
      } else {
        AppendNewName(pre, f);
      }
    }
  }

  /** Appending a row whose name is not taken keeps the names unique. */
  lemma AppendNewName(pre: seq<OggFile>, f: OggFile)
    requires UniqueNames(pre) && NameIndex(pre, f.name).None?
    ensures UniqueNames(pre + [f])
    ensures forall g :: g in pre + [f] <==> g in pre || g == f
  {
  }

  /** The source pass: a source ogg is added only when its name is not
      taken yet. */
  function SourceRows(base: seq<OggFile>, names: seq<string>): (rows: seq<OggFile>)
    requires UniqueNames(base)
    ensures UniqueNames(rows)
    ensures forall f :: f in rows <==>
      f in base || (f.folder == SourceFolder && f.name in names && IsOggName(f.name) && NameIndex(base, f.name).None?)
  {
    if |names| == 0 then base
    else
      var pre := SourceRows(base, names[..|names| - 1]);
      var n := names[|names| - 1];
      var rows := if !IsOggName(n) || NameIndex(pre, n).Some? then pre else pre + [OggFile(SourceFolder, n)];
      SourceStep(base, names, pre, rows);
      rows
  }

  /** The rows of the source pass after `names`: the base rows, and the
      source oggs whose names the base lacks. */
  predicate Listed(base: seq<OggFile>, names: seq<string>, f: OggFile) {
    f in base || (f.folder == SourceFolder && f.name in names && IsOggName(f.name) && NameIndex(base, f.name).None?)
  }

  /** One step of the source pass. */
  lemma SourceStep(base: seq<OggFile>, names: seq<string>, pre: seq<OggFile>, rows: seq<OggFile>)
    requires |names| > 0 && UniqueNames(base) && UniqueNames(pre)
    requires forall f :: f in pre <==>
      f in base || (f.folder == SourceFolder && f.name in names[..|names| - 1] && IsOggName(f.name) && NameIndex(base, f.name).None?)
    requires var n := names[|names| - 1];
      rows == if !IsOggName(n) || NameIndex(pre, n).Some? then pre else pre + [OggFile(SourceFolder, n)]
    ensures UniqueNames(rows)
    ensures forall f :: f in rows <==>
      f in base || (f.folder == SourceFolder && f.name in names && IsOggName(f.name) && NameIndex(base, f.name).None?)
  {
    var n := names[|names| - 1];
    assert forall f :: f in pre <==> Listed(base, names[..|names| - 1], f);
    if !IsOggName(n) || NameIndex(pre, n).Some? {
      SourceSkip(base, names, pre);
    } else {
      AppendNewName(pre, OggFile(SourceFolder, n));
      SourceAppend(base, names, pre);
    }
    assert forall f :: f in rows <==> Listed(base, names, f);
  }

  lemma SourceSkip(base: seq<OggFile>, names: seq<string>, pre: seq<OggFile>)
    requires |names| > 0
    requires forall f :: f in pre <==> Listed(base, names[..|names| - 1], f)
    requires !IsOggName(names[|names| - 1]) || NameIndex(pre, names[|names| - 1]).Some?
    ensures forall f :: f in pre <==> Listed(base, names, f)
  {
    var n := names[|names| - 1];
    assert names == names[..|names| - 1] + [n];
    if IsOggName(n) {
      SourceTaken(base, names, pre);
    }
  }

  lemma SourceAppend(base: seq<OggFile>, names: seq<string>, pre: seq<OggFile>)
    requires |names| > 0
    requires forall f :: f in pre <==> Listed(base, names[..|names| - 1], f)
    requires IsOggName(names[|names| - 1]) && NameIndex(pre, names[|names| - 1]).None?
    ensures forall f :: f in pre + [OggFile(SourceFolder, names[|names| - 1])] <==> Listed(base, names, f)
  {
    var n := names[|names| - 1];
    assert names == names[..|names| - 1] + [n];
    NameMissingBelow(base, pre, n);
    forall f
      ensures f in pre + [OggFile(SourceFolder, n)] <==> Listed(base, names, f)
    {
      assert f in pre + [OggFile(SourceFolder, n)] <==> f in pre || f == OggFile(SourceFolder, n);
    }
  }

  /** A source name already taken adds nothing new: if the base lacks it,
      an earlier source file of that name is already listed. */
  /** A name absent from `pre` is absent from every part of it. */
  lemma NameMissingBelow(base: seq<OggFile>, pre: seq<OggFile>, n: string)
    requires forall i :: 0 <= i < |base| ==> base[i] in pre
    requires NameIndex(pre, n).None?
    ensures NameIndex(base, n).None?
  {
  }

  lemma SourceTaken(base: seq<OggFile>, names: seq<string>, pre: seq<OggFile>)
    requires |names| > 0 && NameIndex(pre, names[|names| - 1]).Some?
    requires forall f :: f in pre <==> Listed(base, names[..|names| - 1], f)
    ensures var n := names[|names| - 1];
      NameIndex(base, n).None? ==> OggFile(SourceFolder, n) in pre
  {
    var n := names[|names| - 1];
    var g := pre[NameIndex(pre, n).value];
    assert g in pre;
    if NameIndex(base, n).None? {
      assert g !in base;
      assert OggFile(SourceFolder, n) == g;
    }
  }

  predicate NameLe(a: OggFile, b: OggFile) {
    StrLe(Lower(a.name), Lower(b.name))
  }

  lemma NameLeTotalPreorder()
    ensures TotalPreorder(NameLe)
  {
    forall a: OggFile, b: OggFile
      ensures NameLe(a, b) || NameLe(b, a)
    {
      StrLeTotal(Lower(a.name), Lower(b.name));
    }
    forall a: OggFile, b: OggFile, c: OggFile | NameLe(a, b) && NameLe(b, c)
      ensures NameLe(a, c)
    {
      StrLeTrans(Lower(a.name), Lower(b.name), Lower(c.name));
    }
  }

  /** `collect_available_oggs` over the two folders' listings: each
      listing is walked in code-point order, cached files first, then
      source-folder files for names without a cached copy, and the result
      is listed by name ignoring case (a stable sort, so names equal up to
      case keep the order of the walk). */
  function CollectAvailableOggs(cacheFiles: seq<string>, sourceFiles: seq<string>): (r: seq<OggFile>)
    ensures Sorted(r, NameLe) && UniqueNames(r)
  {
    var merged := SourceRows(CacheRows(SortBy(cacheFiles, StrLe)), SortBy(sourceFiles, StrLe));
    NameLeTotalPreorder();
    SortBySorted(merged, NameLe);
    PermutedUnique(merged, SortBy(merged, NameLe));
    SortBy(merged, NameLe)
  }

  /** Sorting a listing keeps its names. */
  lemma SortedListingSameNames(files: seq<string>)
    ensures forall n :: n in SortBy(files, StrLe) <==> n in files
  {
    var sorted := SortBy(files, StrLe);
    forall n ensures n in sorted <==> n in files {
      assert n in sorted <==> n in multiset(sorted);
      assert n in files <==> n in multiset(files);
    }
  }

  /** Every ogg name appears once, from the cache when the cache has it and
      from the source folder otherwise, and the list is in name order. */
  lemma CollectAvailableOggsSpec(cacheFiles: seq<string>, sourceFiles: seq<string>)
    ensures forall f :: f in CollectAvailableOggs(cacheFiles, sourceFiles) <==>
      IsOggName(f.name) &&
      ((f.folder == CacheFolder && f.name in cacheFiles)
       || (f.folder == SourceFolder && f.name in sourceFiles && f.name !in cacheFiles))
  {
    var cache := SortBy(cacheFiles, StrLe);
    var source := SortBy(sourceFiles, StrLe);
    var base := CacheRows(cache);
    var merged := SourceRows(base, source);
    var r := CollectAvailableOggs(cacheFiles, sourceFiles);
    SortedListingSameNames(cacheFiles);
    SortedListingSameNames(sourceFiles);
    PermutedSameRows(merged, r);
    forall f: OggFile | IsOggName(f.name) && f.folder == SourceFolder
      ensures NameIndex(base, f.name).None? <==> f.name !in cacheFiles
    {
      CachedNameTaken(cache, f.name);
    }
  }

  /** Against the cache rows, an ogg name is free exactly when no cached
      file has it. */
  lemma CachedNameTaken(cacheFiles: seq<string>, name: string)
    requires IsOggName(name)
    ensures NameIndex(CacheRows(cacheFiles), name).None? <==> name !in cacheFiles
  {
    if name in cacheFiles {
      assert OggFile(CacheFolder, name) in CacheRows(cacheFiles);
    }
  }

  lemma PermutedSameRows(out: seq<OggFile>, r: seq<OggFile>)
    requires multiset(r) == multiset(out)
    ensures forall f :: f in r <==> f in out
  {
    forall f: OggFile ensures f in r <==> f in out {
      assert f in r <==> f in multiset(r);
      assert f in out <==> f in multiset(out);
    }
  }

  lemma PermutedUnique(out: seq<OggFile>, r: seq<OggFile>)
    requires UniqueNames(out) && multiset(r) == multiset(out)
    ensures UniqueNames(r)
  {
    forall i, j | 0 <= i < j < |r|
      ensures r[i].name != r[j].name
    {
      PermutedNamesDistinct(out, r, i, j);
    }
  }

  lemma PermutedNamesDistinct(out: seq<OggFile>, r: seq<OggFile>, i: nat, j: nat)
    requires UniqueNames(out) && multiset(r) == multiset(out)
    requires i < j < |r|
    ensures r[i].name != r[j].name
  {
    if r[i].name == r[j].name {
      assert r[i] in multiset(out) && r[j] in multiset(out);
      var a :| 0 <= a < |out| && out[a] == r[i];
      var b :| 0 <= b < |out| && out[b] == r[j];
      assert a == b;
      assert multiset(r)[r[i]] >= 2 by {
        assert r == r[..i] + [r[i]] + r[i + 1..j] + [r[j]] + r[j + 1..];
      }
      OccursOnce(out, a);
    }
  }
}
