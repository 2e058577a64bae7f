/** Python string behaviour the helpers rely on: `isspace`, `strip`,
    whitespace `split()`, `split(sep)`, `sep.join`, ASCII `lower`, substring
    and subsequence tests. */
module Strings {

  /** The characters Python's `str.isspace` accepts; `strip()` and `split()`
      with no argument use them: U+0009..U+000D, U+001C..U+0020, U+0085,
      U+00A0, U+1680, U+2000..U+200A, U+2028, U+2029, U+202F, U+205F and
      U+3000. */
  predicate IsSpace(c: char) {
    || ('\t' <= c <= '\r')
    || ('\U{001C}' <= c <= ' ')
    || c == '\U{0085}' || c == '\U{00A0}' || c == '\U{1680}'
    || ('\U{2000}' <= c <= '\U{200A}')
    || c == '\U{2028}' || c == '\U{2029}' || c == '\U{202F}' || c == '\U{205F}'
    || c == '\U{3000}'
  }

  predicate NoSpace(s: string) {
    forall i :: 0 <= i < |s| ==> !IsSpace(s[i])
  }

  predicate AllSpace(s: string) {
    forall i :: 0 <= i < |s| ==> IsSpace(s[i])
  }

  /** The end of the run of spaces that starts at `i`. */
  function SpacesFrom(s: string, i: nat): (n: nat)
    requires i <= |s|
    ensures i <= n <= |s| && (n < |s| ==> !IsSpace(s[n]))
    ensures forall k :: i <= k < n ==> IsSpace(s[k])
    decreases |s| - i
  {
    if i == |s| || !IsSpace(s[i]) then i else SpacesFrom(s, i + 1)
  }

  /** The start of the run of spaces that ends at `j`. */
  function SpacesBack(s: string, j: nat): (n: nat)
    requires j <= |s|
    ensures n <= j && (n > 0 ==> !IsSpace(s[n - 1]))
    ensures forall k :: n <= k < j ==> IsSpace(s[k])
  {
    if j == 0 || !IsSpace(s[j - 1]) then j else SpacesBack(s, j - 1)
  }

  /** `s.lstrip()`. */
  function StripLeft(s: string): (r: string)
    ensures |r| <= |s| && r == s[|s| - |r|..]
    ensures r == [] || !IsSpace(r[0])
    ensures AllSpace(s[..|s| - |r|])
  {
    var i := SpacesFrom(s, 0);
    assert forall k :: 0 <= k < i ==> s[..i][k] == s[k];
    s[i..]
  }

  /** `s.rstrip()`. */
  function StripRight(s: string): (r: string)
    ensures |r| <= |s| && r == s[..|r|]
    ensures r == [] || !IsSpace(r[|r| - 1])
    ensures AllSpace(s[|r|..])
  {
    var j := SpacesBack(s, |s|);
    assert forall k :: 0 <= k < |s| - j ==> s[j..][k] == s[j + k];
    s[..j]
  }

  /** `s.strip()`: a slice of `s` with no space at either end, everything
      cut off being space. */
  function Strip(s: string): (r: string)
    ensures |r| <= |s|
    ensures var i := |s| - |StripLeft(s)|;
      && i + |r| <= |s| && r == s[i..i + |r|]
      && AllSpace(s[..i]) && AllSpace(s[i + |r|..])
    ensures r == [] || (!IsSpace(r[0]) && !IsSpace(r[|r| - 1]))
  {
    var left := StripLeft(s);
    var r := StripRight(left);
    SliceOfSuffix(s, |s| - |left|, |r|);
    r
  }

  lemma SliceOfSuffix(s: string, i: nat, m: nat)
    requires i + m <= |s|
    ensures s[i..][..m] == s[i..i + m] && s[i..][m..] == s[i + m..]
  {
  }

  /** A string with no space at either end is its own `strip()`. */
  lemma StripUntrimmed(s: string)
    requires s == [] || (!IsSpace(s[0]) && !IsSpace(s[|s| - 1]))
    ensures Strip(s) == s
  {
  }

  /** A string of spaces strips to the empty string. */
  lemma StripAllSpace(s: string)
    requires AllSpace(s)
    ensures Strip(s) == []
  {
  }

  /** `s.rstrip(c)`. */
  function StripRightChar(s: string, c: char): (r: string)
    ensures |r| <= |s| && r == s[..|r|]
    ensures r == [] || r[|r| - 1] != c
    ensures forall i :: |r| <= i < |s| ==> s[i] == c
  {
    if |s| > 0 && s[|s| - 1] == c then StripRightChar(s[..|s| - 1], c) else s
  }

  /** Length of the leading run of non-space characters. */
  function WordLength(s: string): (n: nat)
    ensures n <= |s| && NoSpace(s[..n]) && (n < |s| ==> IsSpace(s[n]))
  {
    if |s| == 0 || IsSpace(s[0]) then 0
    else
      var n := WordLength(s[1..]) + 1;
      assert s[..n] == [s[0]] + s[1..][..n - 1];
      n
  }

  function Concat(ws: seq<string>): string {
    if |ws| == 0 then [] else ws[0] + Concat(ws[1..])
  }

  /** The characters of `s` that are not spaces. */
  function NonSpace(s: string): string {
    if |s| == 0 then [] else (if IsSpace(s[0]) then [] else [s[0]]) + NonSpace(s[1..])
  }

  predicate IsWord(w: string) {
    |w| > 0 && NoSpace(w)
  }

  /** `s.split()`: the maximal runs of non-space characters. */
  function Words(s: string): seq<string>
    decreases |s|
  {
    if |s| == 0 then []
    else if IsSpace(s[0]) then Words(s[1..])
    else
      var n := WordLength(s);
      [s[..n]] + Words(s[n..])
  }

  /** Every word is non-empty and holds no space. */
  lemma {:induction false} WordsAreWords(s: string)
    ensures forall k :: 0 <= k < |Words(s)| ==> IsWord(Words(s)[k])
    decreases |s|
  {
    if |s| > 0 {
      if IsSpace(s[0]) {
        WordsAreWords(s[1..]);
      } else {
        var n := WordLength(s);
        WordsAreWords(s[n..]);
      }
    }
  }

  /** Splitting loses nothing but whitespace: the words, concatenated, are
      the non-space characters of `s` in order. */
  lemma {:induction false} WordsKeepNonSpace(s: string)
    ensures Concat(Words(s)) == NonSpace(s)
    decreases |s|
  {
    if |s| > 0 {
      if IsSpace(s[0]) {
        WordsKeepNonSpace(s[1..]);
      } else {
        var n := WordLength(s);
        NonSpaceOfWord(s[..n], s[n..]);
        assert s == s[..n] + s[n..];
        WordsKeepNonSpace(s[n..]);
        var ws := Words(s);
        assert ws[1..] == Words(s[n..]);
      }
    }
  }

  /** No words means nothing but spaces. */
  lemma {:induction false} NoWordsAllSpace(s: string)
    requires Words(s) == []
    ensures AllSpace(s)
    decreases |s|
  {
    if |s| > 0 {
      NoWordsAllSpace(s[1..]);
      assert s == [s[0]] + s[1..];
    }
  }

  lemma NonSpaceAppend(a: string, b: string)
    ensures NonSpace(a + b) == NonSpace(a) + NonSpace(b)
  {
    if |a| > 0 {
      assert (a + b)[0] == a[0];
      assert (a + b)[1..] == a[1..] + b;
      NonSpaceAppend(a[1..], b);
    } else {
      assert a + b == b;
    }
  }

  lemma NonSpaceOfWord(a: string, b: string)
    requires NoSpace(a)
    ensures NonSpace(a + b) == a + NonSpace(b)
  {
    NonSpaceAppend(a, b);
    NonSpaceNoSpace(a);
  }

  lemma NonSpaceNoSpace(a: string)
    requires NoSpace(a)
    ensures NonSpace(a) == a
  {
    if |a| > 0 {
      NonSpaceNoSpace(a[1..]);
    }
  }

  /** `sep.join(parts)`. */
  function JoinWith(parts: seq<string>, sep: string): string {
    if |parts| == 0 then []
    else if |parts| == 1 then parts[0]
    else parts[0] + sep + JoinWith(parts[1..], sep)
  }

  /** Joining all but the last part gives a proper prefix of the whole
      join. */
  lemma JoinDropLast(parts: seq<string>, sep: string)
    requires |parts| > 1 && |sep| > 0
    ensures |JoinWith(parts[..|parts| - 1], sep)| < |JoinWith(parts, sep)|
    ensures JoinWith(parts, sep)[..|JoinWith(parts[..|parts| - 1], sep)|] == JoinWith(parts[..|parts| - 1], sep)
  {
    assert parts == parts[..|parts| - 1] + [parts[|parts| - 1]];
    JoinWithSnoc(parts[..|parts| - 1], parts[|parts| - 1], sep);
  }

  /** Joining one more part appends the separator and the part. */
  lemma {:induction false} JoinWithSnoc(parts: seq<string>, w: string, sep: string)
    requires |parts| >= 1
    ensures JoinWith(parts + [w], sep) == JoinWith(parts, sep) + sep + w
  {
    if |parts| == 1 {
      assert parts + [w] == [parts[0], w];
      assert [parts[0], w][1..] == [w];
    } else {
      assert (parts + [w])[1..] == parts[1..] + [w];
      JoinWithSnoc(parts[1..], w, sep);
    }
  }

  /** Joining two adjacent ranges of one list. */
  lemma {:induction false} JoinWithSplitAt(ws: seq<string>, a: nat, b: nat, c: nat, sep: string)
    requires a < b < c <= |ws|
    ensures JoinWith(ws[a..c], sep) == JoinWith(ws[a..b], sep) + sep + JoinWith(ws[b..c], sep)
    decreases c - b
  {
    if c == b + 1 {
      assert ws[a..c] == ws[a..b] + [ws[b]];
      JoinWithSnoc(ws[a..b], ws[b], sep);
      assert ws[b..c] == [ws[b]];
    } else {
      JoinWithSplitAt(ws, a, b, c - 1, sep);
      assert ws[a..c] == ws[a..c - 1] + [ws[c - 1]];
      JoinWithSnoc(ws[a..c - 1], ws[c - 1], sep);
      assert ws[b..c] == ws[b..c - 1] + [ws[c - 1]];
      JoinWithSnoc(ws[b..c - 1], ws[c - 1], sep);
    }
  }

  /** Whitespace splitting undoes joining words with one space. */
  lemma {:induction false} WordsOfJoin(ws: seq<string>)
    requires forall k :: 0 <= k < |ws| ==> IsWord(ws[k])
    ensures Words(JoinWith(ws, " ")) == ws
  {
    if |ws| == 1 {
      WordsCons(ws[0], []);
      assert ws[0] + [] == ws[0];
    } else if |ws| > 1 {
      var rest := JoinWith(ws[1..], " ");
      assert JoinWith(ws, " ") == ws[0] + (" " + rest);
      WordsCons(ws[0], " " + rest);
      WordsSkipsSpace(rest);
      WordsOfJoin(ws[1..]);
    }
  }

  /** A word followed by a space (or nothing) splits off as the first word. */
  lemma {:induction false} WordsCons(w: string, rest: string)
    requires IsWord(w)
    requires rest == [] || IsSpace(rest[0])
    ensures Words(w + rest) == [w] + Words(rest)
  {
    var t := w + rest;
    assert t[0] == w[0];
    assert StripLeft(t) == t;
    WordLengthPrefix(w, rest);
    assert t[..|w|] == w && t[|w|..] == rest;
  }

  lemma {:induction false} WordLengthPrefix(w: string, rest: string)
    requires NoSpace(w)
    requires rest == [] || IsSpace(rest[0])
    ensures WordLength(w + rest) == |w|
  {
    if |w| > 0 {
      assert (w + rest)[0] == w[0];
      assert (w + rest)[1..] == w[1..] + rest;
      WordLengthPrefix(w[1..], rest);
    } else {
      assert w + rest == rest;
    }
  }

  lemma WordsSkipsSpace(t: string)
    ensures Words(" " + t) == Words(t)
  {
    assert (" " + t)[1..] == t;
    assert StripLeft(" " + t) == StripLeft(t);
  }

  /** `s.split(c)` with an explicit separator: always at least one part,
      empty parts kept. */
  function SplitOn(s: string, c: char): (parts: seq<string>)
    ensures |parts| >= 1
    ensures forall k :: 0 <= k < |parts| ==> c !in parts[k]
    decreases |s|
  {
    if c !in s then [s]
    else
      var i := IndexOf(s, c);
      [s[..i]] + SplitOn(s[i + 1..], c)
  }

  /** The first position of `c` in `s`. */
  function IndexOf(s: string, c: char): (i: nat)
    requires c in s
    ensures i < |s| && s[i] == c && c !in s[..i]
  {
    if s[0] == c then 0
    else
      var i := IndexOf(s[1..], c) + 1;
      assert s[..i] == [s[0]] + s[1..][..i - 1];
      i
  }

  /** Joining the parts of a split gives back the string. */
  lemma {:induction false} JoinSplitOn(s: string, c: char)
    ensures JoinWith(SplitOn(s, c), [c]) == s
    decreases |s|
  {
    if c in s {
      var i := IndexOf(s, c);
      var tail := SplitOn(s[i + 1..], c);
      JoinSplitOn(s[i + 1..], c);
      assert SplitOn(s, c) == [s[..i]] + tail;
      assert ([s[..i]] + tail)[1..] == tail;
      assert s == s[..i] + [c] + s[i + 1..];
    }
  }

  /** Splitting a join of separator-free parts gives back the parts. */
  lemma {:induction false} SplitOnJoin(parts: seq<string>, c: char)
    requires |parts| >= 1
    requires forall k :: 0 <= k < |parts| ==> c !in parts[k]
    ensures SplitOn(JoinWith(parts, [c]), c) == parts
  {
    if |parts| > 1 {
      var rest := JoinWith(parts[1..], [c]);
      var s := parts[0] + [c] + rest;
      assert JoinWith(parts, [c]) == s;
      assert c in s by { assert s[|parts[0]|] == c; }
      IndexOfAfterFree(parts[0], rest, c);
      var i := |parts[0]|;
      assert s[..i] == parts[0];
      assert s[i + 1..] == rest;
      assert SplitOn(s, c) == [parts[0]] + SplitOn(rest, c);
      assert forall k :: 0 <= k < |parts| - 1 ==> parts[1..][k] == parts[k + 1];
      SplitOnJoin(parts[1..], c);
      assert parts == [parts[0]] + parts[1..];
    }
  }

  lemma {:induction false} IndexOfAfterFree(a: string, rest: string, c: char)
    requires c !in a
    ensures c in a + [c] + rest && IndexOf(a + [c] + rest, c) == |a|
  {
    var s := a + [c] + rest;
    assert s[|a|] == c;
    if |a| > 0 {
      assert s[1..] == a[1..] + [c] + rest;
      IndexOfAfterFree(a[1..], rest, c);
    }
  }

  /** ASCII `lower()`. */
  function LowerChar(c: char): char {
    if 'A' <= c <= 'Z' then (c as int + 32) as char else c
  }

  function Lower(s: string): (r: string)
    ensures |r| == |s| && forall i :: 0 <= i < |s| ==> r[i] == LowerChar(s[i])
  {
    seq(|s|, i requires 0 <= i < |s| => LowerChar(s[i]))
  }

  /** Text without upper-case ASCII letters is its own `lower()`. */
  lemma LowerUnchanged(s: string)
    requires forall i :: 0 <= i < |s| ==> !('A' <= s[i] <= 'Z')
    ensures Lower(s) == s
  {
  }

  /** `q in t` for strings. */
  predicate IsSubstring(q: string, t: string) {
    exists i :: 0 <= i <= |t| - |q| && IsPrefix(q, t[i..])
  }

  predicate IsPrefix(q: string, t: string) {
    |q| <= |t| && t[..|q|] == q
  }

  /** `q` can be read off `t` left to right, skipping elements. */
  predicate IsSubsequence<T(==)>(q: seq<T>, t: seq<T>)
    decreases |t|
  {
    if |q| == 0 then true
    else if |t| == 0 then false
    else if q[0] == t[0] then IsSubsequence(q[1..], t[1..])
    else IsSubsequence(q, t[1..])
  }

  /** One more element in front of `t` keeps `q` a subsequence. */
  lemma {:induction false} SubsequenceExtend<T>(q: seq<T>, t: seq<T>)
    requires |t| > 0 && IsSubsequence(q, t[1..])
    ensures IsSubsequence(q, t)
    decreases |t|, |q|
  {
    if |q| > 0 && q[0] == t[0] {
      SubsequenceDropHead(q, t[1..]);
    }
  }

  /** Dropping the first element of `q` keeps it a subsequence. */
  lemma {:induction false} SubsequenceDropHead<T>(q: seq<T>, t: seq<T>)
    requires |q| > 0 && IsSubsequence(q, t)
    ensures IsSubsequence(q[1..], t)
    decreases |t|, |q|
  {
    if q[0] == t[0] {
      SubsequenceExtend(q[1..], t);
    } else {
      SubsequenceDropHead(q, t[1..]);
      SubsequenceExtend(q[1..], t);
    }
  }

  lemma {:induction false} SubsequenceOfSuffix<T>(q: seq<T>, t: seq<T>, i: nat)
    requires i <= |t| && IsSubsequence(q, t[i..])
    ensures IsSubsequence(q, t)
  {
    if i > 0 {
      assert t[i - 1..][1..] == t[i..];
      SubsequenceExtend(q, t[i - 1..]);
      SubsequenceOfSuffix(q, t, i - 1);
    }
  }

  lemma {:induction false} PrefixIsSubsequence<T>(q: seq<T>, t: seq<T>)
    requires |q| <= |t| && t[..|q|] == q
    ensures IsSubsequence(q, t)
  {
    if |q| > 0 {
      assert t[1..][..|q| - 1] == q[1..];
      PrefixIsSubsequence(q[1..], t[1..]);
    }
  }

  /** A substring is a subsequence. */
  lemma SubstringIsSubsequence(q: string, t: string)
    requires IsSubstring(q, t)
    ensures IsSubsequence(q, t)
  {
    var i :| 0 <= i <= |t| - |q| && IsPrefix(q, t[i..]);
    PrefixIsSubsequence(q, t[i..]);
    SubsequenceOfSuffix(q, t, i);
  }

  /** A subsequence of a subsequence is a subsequence. */
  lemma {:induction false} SubsequenceTrans<T>(a: seq<T>, b: seq<T>, c: seq<T>)
    requires IsSubsequence(a, b) && IsSubsequence(b, c)
    ensures IsSubsequence(a, c)
    decreases |c|
  {
    if |a| > 0 {
      if b[0] != c[0] {
        SubsequenceTrans(a, b, c[1..]);
        SubsequenceExtend(a, c);
      } else if a[0] == b[0] {
        SubsequenceTrans(a[1..], b[1..], c[1..]);
      } else {
        SubsequenceTrans(a, b[1..], c[1..]);
        SubsequenceExtend(a, c);
      }
    }
  }

  /** How many elements of `s` satisfy `p`. */
  function CountWhere<T>(s: seq<T>, p: T -> bool): (n: nat)
    ensures n <= |s|
  {
    if |s| == 0 then 0 else (if p(s[0]) then 1 else 0) + CountWhere(s[1..], p)
  }

  /** A prefix of a subsequence is a subsequence. */
  lemma {:induction false} SubsequencePrefix<T>(q: seq<T>, t: seq<T>, n: nat)
    requires n <= |q| && IsSubsequence(q, t)
    ensures IsSubsequence(q[..n], t)
    decreases |t|
  {
    if n > 0 {
      assert q[..n][0] == q[0] && q[..n][1..] == q[1..][..n - 1];
      if q[0] == t[0] {
        SubsequencePrefix(q[1..], t[1..], n - 1);
      } else {
        SubsequencePrefix(q, t[1..], n);
      }
    }
  }
}
