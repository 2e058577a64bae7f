/** Name and flag helpers: song-file stems, pathlib's `name`/`stem`/`suffix`,
    mod identifiers, and the lenient yes/no and art-placement parsers. */
module Names {
  import opened Strings

  /** The characters `_safe_song_stem` deletes: control characters and
      those Windows forbids in file names. */
  predicate Forbidden(c: char) {
    || c as int < 0x20
    || c == '<' || c == '>' || c == ':' || c == '"' || c == '/'
    || c == '\\' || c == '|' || c == '?' || c == '*'
  }

  /** The characters of `s` that are not forbidden, in order: a
      subsequence of `s` that is shorter by exactly the forbidden ones. */
  function RemoveForbidden(s: string): (r: string)
    ensures |r| <= |s|
    ensures forall i :: 0 <= i < |r| ==> !Forbidden(r[i])
    ensures forall i :: 0 <= i < |s| && !Forbidden(s[i]) ==> s[i] in r
    ensures (forall i :: 0 <= i < |s| ==> !Forbidden(s[i])) ==> r == s
    ensures IsSubsequence(r, s)
    ensures |r| == |s| - CountWhere(s, Forbidden)
  {
    if |s| == 0 then []
    else
      var rest := RemoveForbidden(s[1..]);
      assert forall i :: 1 <= i < |s| ==> s[i] == s[1..][i - 1];
      if Forbidden(s[0]) then
        SubsequenceExtend(rest, s);
        rest
      else
        assert ([s[0]] + rest)[1..] == rest;
        [s[0]] + rest
  }

  const NewSong: string := "New Song"

  /** `_safe_song_stem`: strip, default, delete forbidden characters, strip
      again and drop trailing dots, default again. The result is a usable
      file stem: never empty, no forbidden character, no leading space and
      no trailing dot. */
  function SafeSongStem(name: string): (r: string)
    ensures |r| > 0 && r[|r| - 1] != '.' && !IsSpace(r[0])
    ensures forall i :: 0 <= i < |r| ==> !Forbidden(r[i])
  {
    var first := Strip(name);
    var r := CleanStem(if first == [] then NewSong else first);
    if r == [] then
      NewSongIsClean();
      NewSong
    else r
  }

  /** The stem is the default or is made of characters of the stripped
      name, in order: nothing is added or moved. */
  lemma SafeSongStemFromName(name: string)
    ensures SafeSongStem(name) == NewSong || IsSubsequence(SafeSongStem(name), Strip(name))
  {
    var first := Strip(name);
    if first == [] {
      NewSongKept();
    } else {
      CleanStemSubsequence(first);
    }
  }

  /** A name that is already a usable stem comes back unchanged. */
  lemma SafeSongStemClean(name: string)
    requires CleanName(name)
    ensures SafeSongStem(name) == name
  {
    CleanNameKept(name);
  }

  /** A name that is already a usable stem: non-empty, nothing to strip,
      no forbidden character and no trailing dot. */
  predicate CleanName(name: string) {
    && name != [] && Strip(name) == name && name[|name| - 1] != '.'
    && forall i :: 0 <= i < |name| ==> !Forbidden(name[i])
  }

  /** The default stem is a clean name. */
  lemma NewSongKept()
    ensures CleanStem(NewSong) == NewSong
  {
    NewSongIsClean();
    StripUntrimmed(NewSong);
    assert CleanName(NewSong);
    CleanNameKept(NewSong);
  }

  /** A clean name passes the second step unchanged. */
  lemma CleanNameKept(name: string)
    requires CleanName(name)
    ensures CleanStem(name) == name
  {
    assert RemoveForbidden(name) == name;
    assert StripRightChar(name, '.') == name;
  }

  /** The second step only deletes characters. */
  lemma CleanStemSubsequence(stem: string)
    ensures IsSubsequence(CleanStem(stem), stem)
  {
    var removed := RemoveForbidden(stem);
    var t := Strip(removed);
    var r := CleanStem(stem);
    var i := |removed| - |StripLeft(removed)|;
    assert IsPrefix(t, removed[i..]);
    SubstringIsSubsequence(t, removed);
    PrefixIsSubsequence(r, t);
    SubsequenceTrans(r, t, removed);
    SubsequenceTrans(r, removed, stem);
  }

  /** The second step: delete forbidden characters, strip, and drop
      trailing dots. What is left, if anything, is a usable stem. */
  function CleanStem(stem: string): (r: string)
    ensures r != [] ==> r[|r| - 1] != '.' && !IsSpace(r[0])
    ensures forall i :: 0 <= i < |r| ==> !Forbidden(r[i])
  {
    var r := StripRightChar(Strip(RemoveForbidden(stem)), '.');
    if r == [] then r
    else
      CleanPrefix(RemoveForbidden(stem), r);
      r
  }

  lemma NewSongIsClean()
    ensures !IsSpace(NewSong[0]) && NewSong[|NewSong| - 1] != '.'
    ensures forall i :: 0 <= i < |NewSong| ==> !Forbidden(NewSong[i])
  {
  }

  /** A non-empty prefix of a stripped string without forbidden characters
      starts with a non-space and has none either. */
  lemma CleanPrefix(cleaned: string, r: string)
    requires forall i :: 0 <= i < |cleaned| ==> !Forbidden(cleaned[i])
    requires var t := Strip(cleaned); 0 < |r| <= |t| && r == t[..|r|]
    ensures !IsSpace(r[0])
    ensures forall i :: 0 <= i < |r| ==> !Forbidden(r[i])
  {
    var t := Strip(cleaned);
    var k := |cleaned| - |StripLeft(cleaned)|;
    assert forall i :: 0 <= i < |r| ==> r[i] == cleaned[k + i];
  }

  /** The second strip can expose dots hidden behind spaces, so the stem is
      not idempotent: "a. ." becomes "a. ", which becomes "a". */
  lemma SafeSongStemNotIdempotent()
    ensures SafeSongStem("a. .") == "a. "
    ensures SafeSongStem(SafeSongStem("a. .")) == "a"
  {
    SafeSongStemDottedTail();
    SafeSongStemSpacedTail();
  }

  lemma SafeSongStemDottedTail()
    ensures SafeSongStem("a. .") == "a. "
  {
    StripUntrimmed("a. .");
    DottedTailSteps();
    StemSteps("a. .", "a. .", "a. ");
  }

  /** `SafeSongStem` on a stripped name, step by step. */
  lemma StemSteps(name: string, cleaned: string, r: string)
    requires name != [] && Strip(name) == name
    requires RemoveForbidden(name) == cleaned && Strip(cleaned) == cleaned
    requires StripRightChar(cleaned, '.') == r && r != []
    ensures SafeSongStem(name) == r
  {
  }

  lemma DottedTailSteps()
    ensures RemoveForbidden("a. .") == "a. ."
    ensures StripRightChar("a. .", '.') == "a. "
  {
    DottedTailKept();
    assert StripRightChar("a. ", '.') == "a. ";
  }

  lemma DottedTailKept()
    ensures RemoveForbidden("a. .") == "a. ."
  {
    assert forall i :: 0 <= i < 4 ==> !Forbidden("a. ."[i]);
  }

  lemma SafeSongStemSpacedTail()
    ensures SafeSongStem("a. ") == "a"
  {
    SpacedTailStrip();
    StripUntrimmed("a.");
    SpacedTailSteps();
  }

  lemma SpacedTailStrip()
    ensures Strip("a. ") == "a."
  {
    assert SpacesFrom("a. ", 0) == 0;
    assert SpacesBack("a. ", 3) == 2 by {
      assert SpacesBack("a. ", 2) == 2;
    }
    assert StripLeft("a. ") == "a. ";
    assert StripRight("a. ") == "a.";
  }

  lemma SpacedTailSteps()
    ensures RemoveForbidden("a.") == "a."
    ensures StripRightChar("a.", '.') == "a"
  {
  }

  /** A stem that does not end in a space is a fixed point. */
  lemma SafeSongStemFixpoint(name: string)
    requires var r := SafeSongStem(name); !IsSpace(r[|r| - 1])
    ensures SafeSongStem(SafeSongStem(name)) == SafeSongStem(name)
  {
    var r := SafeSongStem(name);
    StripUntrimmed(r);
    assert Strip(r) == r;
    assert RemoveForbidden(r) == r;
    assert StripRightChar(r, '.') == r;
  }

  /** The last `/`-separated component, skipping empty and "." components
      as pathlib does; "" when there is none. */
  function PathName(value: string): (r: string)
    ensures '/' !in r
  {
    var parts := Components(SplitOn(value, '/'));
    if |parts| == 0 then [] else parts[|parts| - 1]
  }

  function Components(parts: seq<string>): (r: seq<string>)
    ensures forall k :: 0 <= k < |r| ==> r[k] in parts
  {
    if |parts| == 0 then []
    else if parts[0] == [] || parts[0] == "." then Components(parts[1..])
    else [parts[0]] + Components(parts[1..])
  }

  /** Position of the last `c` in `s`, or -1. */
  function LastIndexOf(s: string, c: char): (i: int)
    ensures -1 <= i < |s|
    ensures i >= 0 ==> s[i] == c
    ensures forall j :: i < j < |s| ==> s[j] != c
  {
    if |s| == 0 then -1
    else if s[|s| - 1] == c then |s| - 1
    else LastIndexOf(s[..|s| - 1], c)
  }

  /** pathlib's suffix rule: the last dot counts only if it is neither the
      first nor the last character of the name. */
  predicate HasSuffix(name: string) {
    0 < LastIndexOf(name, '.') < |name| - 1
  }

  function Suffix(name: string): (r: string)
    ensures HasSuffix(name) ==> |r| >= 2 && r[0] == '.' && '.' !in r[1..]
    ensures !HasSuffix(name) ==> r == []
  {
    if HasSuffix(name) then name[LastIndexOf(name, '.')..] else []
  }

  function Stem(name: string): (r: string)
    ensures r + Suffix(name) == name
  {
    if HasSuffix(name) then name[..LastIndexOf(name, '.')] else name
  }

  predicate IsAsciiAlnum(c: char) {
    ('0' <= c <= '9') || ('A' <= c <= 'Z') || ('a' <= c <= 'z')
  }

  predicate IsAscii(s: string) {
    forall i :: 0 <= i < |s| ==> s[i] as int < 128
  }

  /** Unicode decomposition followed by dropping combining marks; it leaves
      ASCII text alone. */
  type MarkStripper = f: string -> string | forall s :: IsAscii(s) ==> f(s) == s
    witness (s: string) => s

  /** The ASCII letters and digits of `s`, in order: a subsequence of `s`
      as long as the count of such characters in it. */
  function KeepAsciiAlnum(s: string): (r: string)
    ensures |r| <= |s|
    ensures forall i :: 0 <= i < |r| ==> IsAsciiAlnum(r[i])
    ensures (forall i :: 0 <= i < |s| ==> IsAsciiAlnum(s[i])) ==> r == s
    ensures IsSubsequence(r, s)
    ensures |r| == CountWhere(s, IsAsciiAlnum)
  {
    if |s| == 0 then []
    else
      var rest := KeepAsciiAlnum(s[1..]);
      if IsAsciiAlnum(s[0]) then
        assert ([s[0]] + rest)[1..] == rest;
        [s[0]] + rest
      else
        SubsequenceExtend(rest, s);
        rest
  }

  const MaxIdLength := 48
  const DefaultId: string := "Track"

  /** `sanitize_id`: the file stem with accents stripped, reduced to ASCII
      letters and digits, "Track" if nothing is left, cut to 48. */
  function SanitizeId(value: string, stripMarks: MarkStripper): (r: string)
    ensures 1 <= |r| <= MaxIdLength
    ensures forall i :: 0 <= i < |r| ==> IsAsciiAlnum(r[i])
    ensures KeepAsciiAlnum(stripMarks(Stem(PathName(value)))) == [] ==> r == DefaultId
    ensures KeepAsciiAlnum(stripMarks(Stem(PathName(value)))) != [] ==>
      && |r| == (if |KeepAsciiAlnum(stripMarks(Stem(PathName(value))))| < MaxIdLength
                 then |KeepAsciiAlnum(stripMarks(Stem(PathName(value))))| else MaxIdLength)
      && r == KeepAsciiAlnum(stripMarks(Stem(PathName(value))))[..|r|]
  {
    var kept := KeepAsciiAlnum(stripMarks(Stem(PathName(value))));
    if kept == [] then
      DefaultIdAlnum();
      DefaultId
    else if |kept| <= MaxIdLength then kept
    else kept[..MaxIdLength]
  }

  lemma DefaultIdAlnum()
    ensures forall i :: 0 <= i < |DefaultId| ==> IsAsciiAlnum(DefaultId[i])
  {
  }

  /** An identifier sanitizes to itself. */
  lemma SanitizeIdIdempotent(value: string, stripMarks: MarkStripper)
    ensures SanitizeId(SanitizeId(value, stripMarks), stripMarks) == SanitizeId(value, stripMarks)
  {
    var r := SanitizeId(value, stripMarks);
    assert '/' !in r && '.' !in r by {
      assert forall i :: 0 <= i < |r| ==> IsAsciiAlnum(r[i]);
    }
    assert SplitOn(r, '/') == [r];
    assert r != "." by { assert r[0] != '.'; }
    assert Components([r]) == [r];
    assert LastIndexOf(r, '.') == -1;
    assert IsAscii(r) by {
      assert forall i :: 0 <= i < |r| ==> IsAsciiAlnum(r[i]);
    }
  }

  const YesWords: seq<string> := ["y", "yes", "true", "1"]

  /** The stripped, ASCII-lower-cased form the parsers compare. */
  function Normalised(value: string): string {
    Lower(Strip(value))
  }

  /** `_parse_yes_no`: blank gives the default, otherwise true exactly for
      the yes words, in any case and surrounded by any whitespace. */
  function ParseYesNo(value: string, default: bool): (r: bool)
    ensures Strip(value) == [] ==> r == default
    ensures Strip(value) != [] ==> (r <==> Normalised(value) in YesWords)
  {
    var raw := Normalised(value);
    if raw == [] then default else raw in YesWords
  }

  /** Canonical spellings parse back to the flag. */
  lemma ParseYesNoCanonical(b: bool, default: bool)
    ensures ParseYesNo(if b then "yes" else "no", default) == b
  {
    if b {
      NormalisedPlain("yes");
    } else {
      NormalisedPlain("no");
    }
  }

  /** A lower-case word with no surrounding space is already normalised. */
  lemma NormalisedPlain(w: string)
    requires |w| > 0 && !IsSpace(w[0]) && !IsSpace(w[|w| - 1])
    requires forall i :: 0 <= i < |w| ==> !('A' <= w[i] <= 'Z')
    ensures Normalised(w) == w
  {
    StripUntrimmed(w);
    LowerUnchanged(w);
  }

  const Inside: string := "inside"
  const Outside: string := "outside"
  const InsideWords: seq<string> := ["i", "in", "inside", "center", "inner"]
  const OutsideWords: seq<string> := ["o", "out", "outside", "outer"]

  /** `_parse_vinyl_art_placement`: an inside or outside synonym, or the
      default for blank and unknown text. */
  function ParsePlacement(value: string, default: string): (r: string)
    ensures r == Inside || r == Outside || r == default
    ensures Strip(value) == [] ==> r == default
    ensures Normalised(value) in InsideWords ==> r == Inside
    ensures Normalised(value) in OutsideWords ==> r == Outside
    ensures Strip(value) != [] && Normalised(value) !in InsideWords && Normalised(value) !in OutsideWords
      ==> r == default
  {
    var raw := Normalised(value);
    PlacementWordsDisjoint(raw);
    if raw == [] then default
    else if raw in InsideWords then Inside
    else if raw in OutsideWords then Outside
    else default
  }

  /** No word is both an inside and an outside synonym, and none is empty. */
  lemma PlacementWordsDisjoint(w: string)
    ensures w in OutsideWords ==> w !in InsideWords && w != []
    ensures w in InsideWords ==> w != []
  {
  }

  /** A parsed placement parses to itself, whatever the default. */
  lemma ParsePlacementIdempotent(value: string, default: string, default2: string)
    requires ParsePlacement(value, default) == Inside || ParsePlacement(value, default) == Outside
    ensures ParsePlacement(ParsePlacement(value, default), default2) == ParsePlacement(value, default)
  {
    CanonicalPlacements(default2);
  }

  /** The two canonical names parse to themselves. */
  lemma CanonicalPlacements(default: string)
    ensures ParsePlacement(Inside, default) == Inside
    ensures ParsePlacement(Outside, default) == Outside
  {
    NormalisedPlain(Inside);
    NormalisedPlain(Outside);
    assert InsideWords[2] == Inside;
    assert OutsideWords[2] == Outside;
  }
}
