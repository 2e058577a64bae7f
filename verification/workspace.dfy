/** Workspace rules over file names and directory listings: where audio and
    its converted cache live, the variant-pool check, cover lookup by name,
    and the "stem (n)" rule for a free file name. Directory listings and
    existing names are inputs. */
module Workspace {
  import opened Results
  import opened Strings
  import opened Names

  /** A path as its list of components. */
  type Path = seq<string>

  const CacheFolder: string := "_ogg"

  /** `Path.name`: the last component, "" for an empty path. */
  function Name(p: Path): string {
    if |p| == 0 then [] else p[|p| - 1]
  }

  /** `Path.parent`: all but the last component. */
  function Parent(p: Path): Path {
    if |p| == 0 then p else p[..|p| - 1]
  }

  /** `audio_source_root`: a directory named "_ogg" stands for its parent. */
  function AudioSourceRoot(dir: Path): (r: Path)
    ensures Name(dir) != CacheFolder ==> r == dir
    ensures Name(dir) == CacheFolder ==> r + [CacheFolder] == dir
  {
    if Name(dir) == CacheFolder then Parent(dir) else dir
  }

  /** `audio_cache_root`: the directory itself when named "_ogg", otherwise
      its "_ogg" child. */
  function AudioCacheRoot(dir: Path): (r: Path)
    ensures Name(r) == CacheFolder
    ensures Name(dir) == CacheFolder ==> r == dir
    ensures Name(dir) != CacheFolder ==> r == dir + [CacheFolder]
  {
    if Name(dir) == CacheFolder then dir else dir + [CacheFolder]
  }

  /** Pointing at the cache or at its source folder finds the same source
      folder. */
  lemma SourceOfCache(dir: Path)
    ensures AudioSourceRoot(AudioCacheRoot(dir)) == AudioSourceRoot(dir)
  {
    if Name(dir) != CacheFolder {
      assert (dir + [CacheFolder])[..|dir|] == dir;
    }
  }

  /** The cache of the source folder is the cache, unless the source folder
      is itself named "_ogg". */
  lemma CacheOfSource(dir: Path)
    requires Name(AudioSourceRoot(dir)) != CacheFolder
    ensures AudioCacheRoot(AudioSourceRoot(dir)) == AudioCacheRoot(dir)
  {
  }

  /** The two rules disagree for ".../_ogg/_ogg": its source is ".../_ogg",
      whose cache is itself rather than the given directory. */
  lemma NestedCacheFolder(base: Path)
    ensures var dir := base + [CacheFolder, CacheFolder];
      AudioCacheRoot(AudioSourceRoot(dir)) != AudioCacheRoot(dir)
  {
    var dir := base + [CacheFolder, CacheFolder];
    assert Parent(dir) == base + [CacheFolder];
    assert |AudioCacheRoot(AudioSourceRoot(dir))| < |dir|;
  }

  /** Decimal digits of a natural number, as `str(n)` writes them. */
  function Digit(d: nat): char
    requires d < 10
  {
    ('0' as int + d) as char
  }

  function Dec(n: nat): (r: string)
    ensures |r| >= 1 && (n >= 10 <==> |r| >= 2)
    ensures forall i :: 0 <= i < |r| ==> '0' <= r[i] <= '9'
  {
    if n < 10 then [Digit(n)] else Dec(n / 10) + [Digit(n % 10)]
  }

  /** Different numbers print differently. */
  lemma {:induction false} DecInjective(a: nat, b: nat)
    requires Dec(a) == Dec(b)
    ensures a == b
  {
    if a >= 10 && b >= 10 {
      var da := Dec(a);
      assert da[|da| - 1] == Digit(a % 10);
      assert Dec(b)[|da| - 1] == Digit(b % 10);
      assert Dec(a / 10) == da[..|da| - 1] == Dec(b / 10);
      DecInjective(a / 10, b / 10);
    }
  }

  /** `str(i)` for any integer. */
  function IntRepr(i: int): string {
    if i < 0 then "-" + Dec(-i) else Dec(i)
  }

  /** `set(range(lo, hi + 1))`. */
  function Span(lo: int, hi: int): (r: set<int>)
    ensures forall x :: x in r <==> lo <= x <= hi
    decreases hi - lo
  {
    if lo > hi then {} else {lo} + Span(lo + 1, hi)
  }

  predicate Increasing(r: seq<int>) {
    forall i, j :: 0 <= i < j < |r| ==> r[i] < r[j]
  }

  function InsertSorted(x: int, r: seq<int>): (q: seq<int>)
    requires Increasing(r)
    ensures Increasing(q)
    ensures forall y :: y in q <==> y == x || y in r
  {
    if |r| == 0 then [x]
    else if x < r[0] then
      IncreasingCons(x, r);
      [x] + r
    else if x == r[0] then r
    else
      assert forall k :: 0 <= k < |r| - 1 ==> r[1..][k] == r[k + 1];
      var t := InsertSorted(x, r[1..]);
      assert forall k :: 0 <= k < |t| ==> t[k] in t;
      IncreasingCons(r[0], t);
      [r[0]] + t
  }

  /** A value below every element of an increasing sequence extends it. */
  lemma IncreasingCons(y: int, t: seq<int>)
    requires Increasing(t) && forall k :: 0 <= k < |t| ==> y < t[k]
    ensures Increasing([y] + t)
  {
    var q := [y] + t;
    forall i, j | 0 <= i < j < |q|
      ensures q[i] < q[j]
    {
      assert q[j] == t[j - 1];
      if i > 0 {
        assert q[i] == t[i - 1];
      }
    }
  }

  /** `sorted(set(xs))`: the distinct values in increasing order. */
  function SortedDistinct(xs: seq<int>): (r: seq<int>)
    ensures Increasing(r)
    ensures forall y :: y in r <==> y in xs
  {
    if |xs| == 0 then [] else InsertSorted(xs[0], SortedDistinct(xs[1..]))
  }

  /** Python's list display, "[1, 2, 3]". */
  function ListRepr(xs: seq<int>): string {
    "[" + JoinWith(seq(|xs|, i requires 0 <= i < |xs| => IntRepr(xs[i])), ", ") + "]"
  }

  /** `_validate_contiguous_variant_pool`: the numbered variants found must
      be exactly lo..hi, each at least once; otherwise the build stops with
      a message naming the pool, the range and what was found. */
  function ValidateVariantPool(pool: string, variants: seq<int>, lo: int, hi: int): (r: Result<()>)
    ensures r.Ok? <==>
      (forall v :: v in variants ==> lo <= v <= hi) && (forall i :: lo <= i <= hi ==> i in variants)
    ensures r.Err? ==> |r.msg| >= |pool| && r.msg[..|pool|] == pool
  {
    PoolMatches(variants, lo, hi);
    if (set v | v in variants) != Span(lo, hi) then Err(PoolMessage(pool, variants, lo, hi)) else Ok(())
  }

  /** "<pool> must be exactly lo..hi. Found: [...]". */
  function PoolMessage(pool: string, variants: seq<int>, lo: int, hi: int): (m: string)
    ensures |m| >= |pool| && m[..|pool|] == pool
  {
    var tail := " must be exactly " + IntRepr(lo) + ".." + IntRepr(hi) + ". Found: " + ListRepr(SortedDistinct(variants));
    assert (pool + tail)[..|pool|] == pool;
    pool + tail
  }

  lemma PoolMatches(variants: seq<int>, lo: int, hi: int)
    ensures (set v | v in variants) == Span(lo, hi) <==>
      (forall v :: v in variants ==> lo <= v <= hi) && (forall i :: lo <= i <= hi ==> i in variants)
  {
    var found := set v | v in variants;
    var span := Span(lo, hi);
    if (forall v :: v in variants ==> lo <= v <= hi) && (forall i :: lo <= i <= hi ==> i in variants) {
      assert forall x :: x in found <==> x in span;
    }
    if found == span {
      forall v | v in variants
        ensures lo <= v <= hi
      {
        assert v in found;
      }
      forall i | lo <= i <= hi
        ensures i in variants
      {
        assert i in span;
      }
    }
  }

  const ImageSuffixes: seq<string> := [".png", ".jpg", ".jpeg", ".webp", ".bmp"]

  /** `_is_image_file` on a listed file's name. */
  predicate IsImageName(name: string) {
    Lower(Suffix(name)) in ImageSuffixes
  }

  /** The image file matches the needle by whole name or by stem, ignoring
      case. */
  predicate Matches(name: string, needle: string, byStem: bool) {
    IsImageName(name) && Lower(if byStem then Stem(name) else name) == needle
  }

  /** The first listed file that matches, in listing order. */
  function FindFirst(files: seq<string>, needle: string, byStem: bool): (r: Option<nat>)
    ensures r.Some? ==>
      && r.value < |files| && Matches(files[r.value], needle, byStem)
      && forall j :: 0 <= j < r.value ==> !Matches(files[j], needle, byStem)
    ensures r.None? ==> forall j :: 0 <= j < |files| ==> !Matches(files[j], needle, byStem)
  {
    if |files| == 0 then None
    else if Matches(files[0], needle, byStem) then Some(0)
    else
      var r := FindFirst(files[1..], needle, byStem);
      if r.Some? then Some(r.value + 1) else None
  }

  predicate HasImage(files: seq<string>) {
    exists i :: 0 <= i < |files| && IsImageName(files[i])
  }

  /** `_resolve_cover_choice` over a directory listing: a blank choice or a
      folder without images gives nothing; otherwise the first image whose
      name equals the choice (ignoring case and surrounding space), failing
      that the first whose stem does. */
  function ResolveCoverChoice(files: seq<string>, choice: string): (r: Option<string>)
    ensures r.Some? ==> r.value in files && IsImageName(r.value)
    ensures Strip(choice) == [] || !HasImage(files) ==> r.None?
    ensures Strip(choice) != [] ==>
      var needle := Lower(Strip(choice));
      && (FindFirst(files, needle, false).Some? ==> r == Some(files[FindFirst(files, needle, false).value]))
      && ((FindFirst(files, needle, false).None? && FindFirst(files, needle, true).Some?)
          ==> r == Some(files[FindFirst(files, needle, true).value]))
      && (FindFirst(files, needle, false).None? && FindFirst(files, needle, true).None? ==> r.None?)
  {
    if !HasImage(files) || Strip(choice) == [] then None
    else
      var needle := Lower(Strip(choice));
      var byName := FindFirst(files, needle, false);
      if byName.Some? then Some(files[byName.value])
      else
        var byStem := FindFirst(files, needle, true);
        if byStem.Some? then Some(files[byStem.value]) else None
  }

  /** Choosing a listed image by its own name finds that image when no
      other listed name equals it up to case. */
  lemma ChoosingListedImage(files: seq<string>, i: nat)
    requires i < |files| && IsImageName(files[i])
    requires Strip(files[i]) == files[i] && files[i] != []
    requires forall j :: 0 <= j < |files| && j != i ==> Lower(files[j]) != Lower(files[i])
    ensures ResolveCoverChoice(files, files[i]) == Some(files[i])
  {
    var needle := Lower(files[i]);
    assert Lower(Strip(files[i])) == needle;
    assert HasImage(files);
    assert Matches(files[i], needle, false);
    var k := FindFirst(files, needle, false);
    assert k.Some? && k.value == i;
  }

  /** The name tried for attempt `n`: "stem (n)suffix". */
  function Numbered(stem: string, n: nat, suffix: string): string {
    stem + " (" + Dec(n) + ")" + suffix
  }

  /** Different attempts give different names. */
  lemma NumberedInjective(stem: string, a: nat, b: nat, suffix: string)
    requires Numbered(stem, a, suffix) == Numbered(stem, b, suffix)
    ensures a == b
  {
    var p := stem + " (";
    var x := Numbered(stem, a, suffix);
    assert x == p + (Dec(a) + ")" + suffix);
    assert x == p + (Dec(b) + ")" + suffix);
    var ta := Dec(a) + ")" + suffix;
    var tb := Dec(b) + ")" + suffix;
    assert ta == x[|p|..] == tb;
    if |Dec(a)| == |Dec(b)| {
      assert Dec(a) == ta[..|Dec(a)|] == tb[..|Dec(b)|] == Dec(b);
      DecInjective(a, b);
    }
  }

  lemma SubsetSize<T>(a: set<T>, b: set<T>)
    requires a <= b
    ensures |a| <= |b|
  {
    assert b == a + (b - a);
  }

  /** `_next_free` (and the output-name loop of the converter): keep the
      name if it is free, else the first free "stem (n)suffix" from n = 2.
      `taken` is the set of names present in the folder. */
  method NextFreeName(stem: string, suffix: string, taken: set<string>) returns (name: string)
    ensures name !in taken
    ensures stem + suffix !in taken ==> name == stem + suffix
    ensures stem + suffix in taken ==>
      exists n :: n >= 2 && name == Numbered(stem, n, suffix)
        && forall m :: 2 <= m < n ==> Numbered(stem, m, suffix) in taken
  {
    if stem + suffix !in taken {
      return stem + suffix;
    }
    var n := 2;
    ghost var seen: set<string> := {};
    while Numbered(stem, n, suffix) in taken
      invariant n >= 2
      invariant seen == set m | 2 <= m < n :: Numbered(stem, m, suffix)
      invariant seen <= taken && |seen| == n - 2
      invariant forall m :: 2 <= m < n ==> Numbered(stem, m, suffix) in taken
      decreases |taken| - |seen|
    {
      var next := Numbered(stem, n, suffix);
      if next in seen {
        var m :| 2 <= m < n && next == Numbered(stem, m, suffix);
        NumberedInjective(stem, m, n, suffix);
      }
      SubsetSize(seen + {next}, taken);
      seen := seen + {next};
      n := n + 1;
    }
    name := Numbered(stem, n, suffix);
  }
}
