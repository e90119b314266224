/**
 * The Python 2 string operations the core relies on, on `seq<char>`:
 * `strip()`, `split(sep)`, `split()`, `sep.join(...)`, `lower()`, string
 * ordering (used by `sorted`), and left-justified padding (`{:20}`).
 */
module Strings {

  /** `str.isspace` for one character of a Python 2 byte string. */
  predicate IsSpace(c: char) {
    c == ' ' || c == '\t' || c == '\n' || c == '\r' || c == '\U{B}' || c == '\U{C}'
  }

  predicate AllSpace(s: string) {
    forall i :: 0 <= i < |s| ==> IsSpace(s[i])
  }

  predicate NoSpace(s: string) {
    forall i :: 0 <= i < |s| ==> !IsSpace(s[i])
  }

  predicate IsPrefix(p: string, s: string) {
    |p| <= |s| && s[..|p|] == p
  }

  // ---------------------------------------------------------------- strip

  /** The first index at or after `k` whose character is not whitespace, or |s|. */
  function SkipSpace(s: string, k: nat): (i: nat)
    requires k <= |s|
    ensures k <= i <= |s| && (i < |s| ==> !IsSpace(s[i]))
    decreases |s| - k
  {
    if k == |s| || !IsSpace(s[k]) then k else SkipSpace(s, k + 1)
  }

  /** Everything SkipSpace passes over is whitespace. */
  lemma {:induction false} SkipSpaceSkips(s: string, k: nat)
    requires k <= |s|
    ensures forall m :: k <= m < SkipSpace(s, k) ==> IsSpace(s[m])
    decreases |s| - k
  {
    if k < |s| && IsSpace(s[k]) {
      SkipSpaceSkips(s, k + 1);
    }
  }

  /** The least index `j` at or below `k` such that s[j..k] is all whitespace. */
  function BackSkipSpace(s: string, k: nat): (j: nat)
    requires k <= |s|
    ensures j <= k && (j > 0 ==> !IsSpace(s[j - 1]))
    ensures forall m :: j <= m < k ==> IsSpace(s[m])
  {
    if k == 0 || !IsSpace(s[k - 1]) then k else BackSkipSpace(s, k - 1)
  }

  lemma {:induction false} SkipSpaceAt(s: string, k: nat, i: nat)
    requires k <= i <= |s| && (i < |s| ==> !IsSpace(s[i]))
    requires forall m :: k <= m < i ==> IsSpace(s[m])
    ensures SkipSpace(s, k) == i
    decreases i - k
  {
    if k < i {
      SkipSpaceAt(s, k + 1, i);
    }
  }

  lemma BackSkipSpaceAt(s: string, k: nat, j: nat)
    requires j <= k <= |s| && (j > 0 ==> !IsSpace(s[j - 1]))
    requires forall m :: j <= m < k ==> IsSpace(s[m])
    ensures BackSkipSpace(s, k) == j
  {
  }

  /** `str.strip()`: `s` without its leading and trailing whitespace. */
  function Strip(s: string): string {
    var i := SkipSpace(s, 0);
    if i == |s| then [] else s[i..BackSkipSpace(s, |s|)]
  }

  /**
   * What `strip()` returns: the infix of `s` that is empty or begins and
   * ends with a non-whitespace character, and around which there is only
   * whitespace.
   */
  lemma StripSpec(s: string)
    ensures exists i, j ::
      && 0 <= i <= j <= |s| && Strip(s) == s[i..j]
      && (forall m :: 0 <= m < i ==> IsSpace(s[m]))
      && (forall m :: j <= m < |s| ==> IsSpace(s[m]))
    ensures var r := Strip(s); r == [] || (!IsSpace(r[0]) && !IsSpace(r[|r| - 1]))
  {
    var i := SkipSpace(s, 0);
    SkipSpaceSkips(s, 0);
    if i == |s| {
      assert Strip(s) == s[i..i];
    } else {
      var j := BackSkipSpace(s, |s|);
      assert i < j;
      assert Strip(s) == s[i..j];
    }
  }

  /** Strip is determined by its contract: any infix meeting it is what `strip()` returns. */
  lemma StripIs(s: string, i: nat, j: nat)
    requires i <= j <= |s|
    requires forall m :: 0 <= m < i ==> IsSpace(s[m])
    requires forall m :: j <= m < |s| ==> IsSpace(s[m])
    requires i == j || (!IsSpace(s[i]) && !IsSpace(s[j - 1]))
    ensures Strip(s) == s[i..j]
  {
    if i == j {
      SkipSpaceAt(s, 0, |s|);
    } else {
      SkipSpaceAt(s, 0, i);
      BackSkipSpaceAt(s, |s|, j);
    }
  }

  lemma SkipSpaceShift(w: string, s: string)
    requires AllSpace(w)
    ensures SkipSpace(w + s, 0) == |w| + SkipSpace(s, 0)
  {
    var t := w + s;
    var i := SkipSpace(s, 0);
    SkipSpaceSkips(s, 0);
    forall m | 0 <= m < |w| + i ensures IsSpace(t[m]) {
      if m < |w| { assert t[m] == w[m]; } else { assert t[m] == s[m - |w|]; }
    }
    if |w| + i < |t| {
      assert t[|w| + i] == s[i];
    }
    SkipSpaceAt(t, 0, |w| + i);
  }

  lemma BackSkipSpaceShift(w: string, s: string)
    requires SkipSpace(s, 0) < |s|
    ensures SkipSpace(s, 0) < BackSkipSpace(s, |s|)
    ensures BackSkipSpace(w + s, |w + s|) == |w| + BackSkipSpace(s, |s|)
  {
    var t := w + s;
    var j := BackSkipSpace(s, |s|);
    assert SkipSpace(s, 0) < j;
    forall m | |w| + j <= m < |t| ensures IsSpace(t[m]) {
      assert t[m] == s[m - |w|];
    }
    assert t[|w| + j - 1] == s[j - 1];
    BackSkipSpaceAt(t, |t|, |w| + j);
  }

  /** Leading whitespace does not change what `strip()` returns. */
  lemma StripSpacePrefix(w: string, s: string)
    requires AllSpace(w)
    ensures Strip(w + s) == Strip(s)
  {
    var t := w + s;
    var i := SkipSpace(s, 0);
    assert SkipSpace(t, 0) == |w| + i by { SkipSpaceShift(w, s); }
    if i < |s| {
      var j := BackSkipSpace(s, |s|);
      assert i < j && BackSkipSpace(t, |t|) == |w| + j by { BackSkipSpaceShift(w, s); }
      assert t[|w| + i..|w| + j] == s[i..j] by { SliceShift(w, s, i, j); }
    }
  }

  lemma SliceShift(w: string, s: string, i: nat, j: nat)
    requires i <= j <= |s|
    ensures (w + s)[|w| + i..|w| + j] == s[i..j]
  {
  }


  /** A string that is empty or neither begins nor ends with whitespace is its own `strip()`. */
  lemma StripUnchanged(s: string)
    requires s == [] || (!IsSpace(s[0]) && !IsSpace(s[|s| - 1]))
    ensures Strip(s) == s
  {
    StripIs(s, 0, |s|);
  }

  // ------------------------------------------------- split(sep) and join

  /** `sep` occurs in `s` at index `i`. */
  predicate OccursAt(s: string, sep: string, i: nat) {
    i + |sep| <= |s| && s[i..i + |sep|] == sep
  }

  /** The first index at or after `k` where `sep` occurs in `s`, or |s|. */
  function FindFrom(s: string, sep: string, k: nat): (i: nat)
    requires sep != [] && k <= |s|
    ensures k <= i <= |s|
    ensures i < |s| ==> OccursAt(s, sep, i)
    ensures forall j :: k <= j < i ==> !OccursAt(s, sep, j)
    decreases |s| - k
  {
    if |s| < k + |sep| then |s|
    else if OccursAt(s, sep, k) then k
    else FindFrom(s, sep, k + 1)
  }

  /** `str.find(sep)`, with |s| standing for "not found". */
  function Find(s: string, sep: string): (i: nat)
    requires sep != []
    ensures i <= |s|
    ensures i < |s| ==> OccursAt(s, sep, i)
    ensures forall j :: 0 <= j < i ==> !OccursAt(s, sep, j)
  {
    FindFrom(s, sep, 0)
  }

  /** `s.split(sep)`: the pieces between the non-overlapping occurrences of `sep`, left to right. */
  function SplitOn(s: string, sep: string): (parts: seq<string>)
    requires sep != []
    ensures |parts| >= 1
    decreases |s|
  {
    var i := Find(s, sep);
    if i == |s| then [s] else [s[..i]] + SplitOn(s[i + |sep|..], sep)
  }

  /** `sep.join(parts)`. */
  function JoinWith(parts: seq<string>, sep: string): string {
    if |parts| == 0 then ""
    else if |parts| == 1 then parts[0]
    else parts[0] + sep + JoinWith(parts[1..], sep)
  }

  /** Joining the pieces of a split gives the string back. */
  lemma {:induction false} JoinSplit(s: string, sep: string)
    requires sep != []
    ensures JoinWith(SplitOn(s, sep), sep) == s
    decreases |s|
  {
    var i := Find(s, sep);
    if i < |s| {
      var rest := s[i + |sep|..];
      var tail := SplitOn(rest, sep);
      assert SplitOn(s, sep) == [s[..i]] + tail;
      assert ([s[..i]] + tail)[1..] == tail;
      JoinSplit(rest, sep);
      assert JoinWith(SplitOn(s, sep), sep) == s[..i] + sep + rest;
      assert s[i..i + |sep|] == sep;
      assert s == s[..i] + s[i..i + |sep|] + rest;
    }
  }

  /**
   * The first piece of `s.split(sep)` is the text before the first `sep`;
   * the remaining pieces, joined again with `sep`, are the text after it.
   */
  lemma SplitFirst(s: string, sep: string)
    requires sep != []
    ensures var i := Find(s, sep);
      SplitOn(s, sep)[0] == s[..i] &&
      JoinWith(SplitOn(s, sep)[1..], sep) == (if i == |s| then "" else s[i + |sep|..])
  {
    var i := Find(s, sep);
    if i < |s| {
      var rest := s[i + |sep|..];
      var tail := SplitOn(rest, sep);
      assert SplitOn(s, sep) == [s[..i]] + tail;
      assert ([s[..i]] + tail)[1..] == tail;
      JoinSplit(rest, sep);
    }
  }

  /** Joining a concatenation: the two joins with one separator between them. */
  lemma JoinWithAppend(a: seq<string>, b: seq<string>, sep: string)
    requires a != [] && b != []
    ensures JoinWith(a + b, sep) == JoinWith(a, sep) + sep + JoinWith(b, sep)
    decreases |a|
  {
    if |a| > 1 {
      assert (a + b)[1..] == a[1..] + b;
      JoinWithAppend(a[1..], b, sep);
    } else {
      assert (a + b)[1..] == b;
    }
  }

  /** The first part begins the joined string. */
  lemma JoinWithHead(parts: seq<string>, sep: string)
    requires parts != []
    ensures IsPrefix(parts[0], JoinWith(parts, sep))
  {
  }

  /** `i` is the first occurrence of `sep` (or |s| when it does not occur). */
  lemma FindIs(s: string, sep: string, i: nat)
    requires sep != [] && i <= |s| && (i < |s| ==> OccursAt(s, sep, i))
    requires forall j :: 0 <= j < i ==> !OccursAt(s, sep, j)
    ensures Find(s, sep) == i
  {
  }

  /** `sep` is the one-character string [c] and `j` is the first index of c in `s`. */
  lemma FindChar(s: string, c: char, j: nat)
    requires j <= |s| && c !in s[..j]
    requires j < |s| ==> s[j] == c
    ensures Find(s, [c]) == j
  {
    forall k | 0 <= k < j ensures s[k] != c {
      assert s[..j][k] == s[k];
    }
    forall k: nat | OccursAt(s, [c], k) ensures s[k] == c {
      assert s[k..k + 1][0] == s[k];
    }
    if j < |s| {
      assert s[j..j + 1] == [c];
      assert OccursAt(s, [c], j);
    }
  }

  /** No piece of a split on one character contains that character. */
  lemma {:induction false} SplitOnCharPieces(s: string, c: char)
    ensures forall k :: 0 <= k < |SplitOn(s, [c])| ==> c !in SplitOn(s, [c])[k]
    decreases |s|
  {
    var i := Find(s, [c]);
    assert c !in s[..i] by {
      forall j | 0 <= j < i ensures s[..i][j] != c {
        assert !OccursAt(s, [c], j);
      }
    }
    if i < |s| {
      SplitOnCharPieces(s[i + 1..], c);
    }
  }

  /** Splitting on one character undoes joining pieces that do not contain it. */
  lemma {:induction false} SplitJoinChar(parts: seq<string>, c: char)
    requires |parts| >= 1
    requires forall k :: 0 <= k < |parts| ==> c !in parts[k]
    ensures SplitOn(JoinWith(parts, [c]), [c]) == parts
    decreases |parts|
  {
    var s := JoinWith(parts, [c]);
    if |parts| == 1 {
      FindChar(s, c, |s|);
    } else {
      var rest := JoinWith(parts[1..], [c]);
      assert s == parts[0] + [c] + rest;
      assert s[..|parts[0]|] == parts[0];
      FindChar(s, c, |parts[0]|);
      assert s[|parts[0]| + 1..] == rest;
      SplitJoinChar(parts[1..], c);
    }
  }

  /** The lines of a text: `s.split('\n')`. */
  function Lines(s: string): (ls: seq<string>)
    ensures |ls| >= 1
  {
    SplitOn(s, "\n")
  }

  /** A leading newline adds an empty first line. */
  lemma LinesLeadingNewline(doc: string)
    ensures Lines("\n" + doc) == [""] + Lines(doc)
  {
    var s := "\n" + doc;
    FindChar(s, '\n', 0);
    assert s[1..] == doc;
  }

  // ------------------------------------------------------------- split()

  /** The first index at or after `k` holding a whitespace character, or |s|. */
  function SpaceFrom(s: string, k: nat): (i: nat)
    requires k <= |s|
    ensures k <= i <= |s| && (i < |s| ==> IsSpace(s[i]))
    decreases |s| - k
  {
    if k == |s| || IsSpace(s[k]) then k else SpaceFrom(s, k + 1)
  }

  /** Everything SpaceFrom passes over is not whitespace. */
  lemma {:induction false} SpaceFromPasses(s: string, k: nat)
    requires k <= |s|
    ensures forall m :: k <= m < SpaceFrom(s, k) ==> !IsSpace(s[m])
    decreases |s| - k
  {
    if k < |s| && !IsSpace(s[k]) {
      SpaceFromPasses(s, k + 1);
    }
  }

  lemma {:induction false} SpaceFromAt(s: string, k: nat, i: nat)
    requires k <= i <= |s| && (i < |s| ==> IsSpace(s[i]))
    requires forall m :: k <= m < i ==> !IsSpace(s[m])
    ensures SpaceFrom(s, k) == i
    decreases i - k
  {
    if k < i {
      SpaceFromAt(s, k + 1, i);
    }
  }

  /** The words of s[k..]. */
  function SplitWsFrom(s: string, k: nat): seq<string>
    requires k <= |s|
    decreases |s| - k
  {
    var i := SkipSpace(s, k);
    if i == |s| then [] else
      var j := SpaceFrom(s, i);
      [s[i..j]] + SplitWsFrom(s, j)
  }

  /** Every word `split()` finds is non-empty and holds no whitespace. */
  lemma {:induction false} SplitWsFromWords(s: string, k: nat)
    requires k <= |s|
    ensures forall m :: 0 <= m < |SplitWsFrom(s, k)| ==> SplitWsFrom(s, k)[m] != [] && NoSpace(SplitWsFrom(s, k)[m])
    decreases |s| - k
  {
    var i := SkipSpace(s, k);
    if i < |s| {
      var j := SpaceFrom(s, i);
      SpaceFromPasses(s, i);
      assert NoSpace(s[i..j]) by {
        forall m | 0 <= m < j - i ensures !IsSpace(s[i..j][m]) {
          assert s[i..j][m] == s[i + m];
        }
      }
      SplitWsFromWords(s, j);
    }
  }

  /** `str.split()` with no argument: the maximal runs of non-whitespace characters, in order. */
  function SplitWs(s: string): (words: seq<string>)
    ensures forall m :: 0 <= m < |words| ==> words[m] != [] && NoSpace(words[m])
  {
    SplitWsFromWords(s, 0);
    SplitWsFrom(s, 0)
  }

  /** A word of `split()`: non-empty, without whitespace. */
  predicate IsWord(w: string) {
    w != [] && NoSpace(w)
  }

  /** A word at `k`, followed by the end or by whitespace, is the first word `split()` finds there. */
  lemma SplitWsFromWordAt(s: string, k: nat, w: string)
    requires IsWord(w) && k + |w| <= |s| && s[k..k + |w|] == w
    requires k + |w| == |s| || IsSpace(s[k + |w|])
    ensures SplitWsFrom(s, k) == [w] + SplitWsFrom(s, k + |w|)
  {
    var e := k + |w|;
    forall m | k <= m < e ensures !IsSpace(s[m]) {
      assert s[m] == s[k..e][m - k];
    }
    SkipSpaceAt(s, k, k);
    SpaceFromAt(s, k, e);
  }

  lemma WordsTail(words: seq<string>)
    requires words != [] && forall m :: 0 <= m < |words| ==> IsWord(words[m])
    ensures forall m :: 0 <= m < |words[1..]| ==> IsWord(words[1..][m])
  {
    forall m | 0 <= m < |words[1..]| ensures IsWord(words[1..][m]) {
      assert words[1..][m] == words[m + 1];
    }
  }

  lemma SkipSpaceShiftFrom(p: string, s: string, k: nat)
    requires k <= |s|
    ensures SkipSpace(p + s, |p| + k) == |p| + SkipSpace(s, k)
  {
    var t := p + s;
    var i := SkipSpace(s, k);
    SkipSpaceSkips(s, k);
    forall m | |p| + k <= m < |p| + i ensures IsSpace(t[m]) {
      assert t[m] == s[m - |p|];
    }
    if i < |s| {
      assert t[|p| + i] == s[i];
    }
    SkipSpaceAt(t, |p| + k, |p| + i);
  }

  lemma SpaceFromShift(p: string, s: string, i: nat)
    requires i <= |s|
    ensures SpaceFrom(p + s, |p| + i) == |p| + SpaceFrom(s, i)
  {
    var t := p + s;
    var j := SpaceFrom(s, i);
    SpaceFromPasses(s, i);
    forall m | |p| + i <= m < |p| + j ensures !IsSpace(t[m]) {
      assert t[m] == s[m - |p|];
    }
    if j < |s| {
      assert t[|p| + j] == s[j];
    }
    SpaceFromAt(t, |p| + i, |p| + j);
  }

  /** What comes before position |p| does not change the words found from there on. */
  lemma {:induction false} SplitWsFromShift(p: string, s: string, k: nat)
    requires k <= |s|
    ensures SplitWsFrom(p + s, |p| + k) == SplitWsFrom(s, k)
    decreases |s| - k
  {
    var t := p + s;
    var i := SkipSpace(s, k);
    SkipSpaceShiftFrom(p, s, k);
    if i < |s| {
      var j := SpaceFrom(s, i);
      var w := s[i..j];
      assert SplitWsFrom(t, |p| + k) == [w] + SplitWsFrom(t, |p| + j) by {
        SpaceFromShift(p, s, i);
        SliceShift(p, s, i, j);
        SplitWsFromStep(t, |p| + k, |p| + i, |p| + j);
      }
      assert SplitWsFrom(t, |p| + j) == SplitWsFrom(s, j) by {
        SplitWsFromShift(p, s, j);
      }
      assert SplitWsFrom(s, k) == [w] + SplitWsFrom(s, j) by {
        SplitWsFromStep(s, k, i, j);
      }
    }
  }

  /** One step of `split()`: the word at the next non-whitespace position, then the words after it. */
  lemma SplitWsFromStep(s: string, k: nat, i: nat, j: nat)
    requires k <= |s| && i == SkipSpace(s, k) < |s| && j == SpaceFrom(s, i)
    ensures SplitWsFrom(s, k) == [s[i..j]] + SplitWsFrom(s, j)
  {
  }

  /** Leading whitespace does not change what `split()` returns. */
  lemma SplitWsSpacePrefix(g: string, s: string)
    requires AllSpace(g)
    ensures SplitWs(g + s) == SplitWs(s)
  {
    SkipSpaceShift(g, s);
    SkipSpaceShiftFrom(g, s, 0);
    assert SplitWsFrom(g + s, 0) == SplitWsFrom(g + s, |g|);
    SplitWsFromShift(g, s, 0);
  }

  /** A word followed by whitespace is the first word; `split()` goes on with what follows. */
  lemma SplitWsWordPrefix(w: string, g: string, s: string)
    requires IsWord(w) && AllSpace(g) && g != []
    ensures SplitWs(w + g + s) == [w] + SplitWs(s)
  {
    var rest := g + s;
    var t := w + rest;
    assert w + g + s == t;
    assert t[0..|w|] == w;
    assert t[|w|] == g[0];
    SplitWsFromWordAt(t, 0, w);
    SplitWsFromShift(w, rest, 0);
    SplitWsSpacePrefix(g, s);
  }

  /** `split()` of a single word is that word. */
  lemma SplitWsSingle(w: string)
    requires IsWord(w)
    ensures SplitWs(w) == [w]
  {
    assert w[0..|w|] == w;
    SplitWsFromWordAt(w, 0, w);
  }

  /** `split()` undoes joining non-empty, whitespace-free words with single spaces. */
  lemma {:induction false} SplitWsJoin(words: seq<string>)
    requires forall m :: 0 <= m < |words| ==> IsWord(words[m])
    ensures SplitWs(JoinWith(words, " ")) == words
    decreases |words|
  {
    if |words| == 1 {
      SplitWsSingle(words[0]);
    } else if |words| > 1 {
      var w, rest := words[0], JoinWith(words[1..], " ");
      assert JoinWith(words, " ") == w + " " + rest;
      assert IsWord(w) && AllSpace(" ");
      SplitWsWordPrefix(w, " ", rest);
      WordsTail(words);
      SplitWsJoin(words[1..]);
      assert words == [w] + words[1..];
    }
  }


  // ------------------------------------------------------------- lower()

  function LowerChar(c: char): char {
    if 'A' <= c <= 'Z' then (c as int - 'A' as int + 'a' as int) as char else c
  }

  /** `str.lower()` on ASCII: maps A-Z to a-z, character by character. */
  function Lower(s: string): (r: string)
    ensures |r| == |s| && forall i :: 0 <= i < |s| ==> r[i] == LowerChar(s[i])
  {
    if s == [] then [] else [LowerChar(s[0])] + Lower(s[1..])
  }

  // ------------------------------------------------------ ordering, sorted

  /** Python's `<` on strings: lexicographic by character code, a proper prefix first. */
  predicate Less(a: string, b: string)
    decreases |a|
  {
    if a == [] then b != []
    else if b == [] then false
    else a[0] < b[0] || (a[0] == b[0] && Less(a[1..], b[1..]))
  }

  lemma {:induction false} LessIrreflexive(a: string)
    ensures !Less(a, a)
    decreases |a|
  {
    if a != [] { LessIrreflexive(a[1..]); }
  }

  lemma {:induction false} LessTransitive(a: string, b: string, c: string)
    requires Less(a, b) && Less(b, c)
    ensures Less(a, c)
    decreases |a|
  {
    if a != [] && a[0] == b[0] && b[0] == c[0] {
      LessTransitive(a[1..], b[1..], c[1..]);
    }
  }

  lemma {:induction false} LessTotal(a: string, b: string)
    requires a != b
    ensures Less(a, b) || Less(b, a)
    decreases |a|
  {
    if a != [] && b != [] && a[0] == b[0] {
      assert a == [a[0]] + a[1..] && b == [b[0]] + b[1..];
      LessTotal(a[1..], b[1..]);
    }
  }

  lemma LessAsymmetric(a: string, b: string)
    requires Less(a, b)
    ensures !Less(b, a)
  {
    if Less(b, a) {
      LessTransitive(a, b, a);
      LessIrreflexive(a);
    }
  }

  predicate StrictlySorted(ks: seq<string>) {
    forall i, j :: 0 <= i < j < |ks| ==> Less(ks[i], ks[j])
  }

  /** `m` is the least element of `s`. */
  predicate IsLeast(m: string, s: set<string>) {
    m in s && forall x :: x in s && x != m ==> Less(m, x)
  }

  lemma {:induction false} LeastExists(s: set<string>)
    requires s != {}
    ensures exists m :: m in s && IsLeast(m, s)
    decreases |s|
  {
    var y :| y in s;
    if s == {y} {
      assert IsLeast(y, s);
    } else {
      LeastExists(s - {y});
      var m :| m in s - {y} && IsLeast(m, s - {y});
      LessTotal(y, m);
      if Less(y, m) {
        forall x | x in s && x != y ensures Less(y, x) {
          if x != m { LessTransitive(y, m, x); }
        }
        assert IsLeast(y, s);
      } else {
        assert IsLeast(m, s);
      }
    }
  }

  lemma LeastUnique(m: string, n: string, s: set<string>)
    requires IsLeast(m, s) && IsLeast(n, s)
    ensures m == n
  {
    if m != n {
      LessAsymmetric(m, n);
    }
  }

  /** `sorted(s)` for a set of strings: its elements in ascending order, each once. */
  function Sorted(s: set<string>): (ks: seq<string>)
    ensures |ks| == |s| && StrictlySorted(ks)
    ensures forall k :: k in s <==> k in ks
    decreases |s|
  {
    if s == {} then []
    else
      LeastExists(s);
      assert forall m, n :: IsLeast(m, s) && IsLeast(n, s) ==> m == n by {
        forall m, n | IsLeast(m, s) && IsLeast(n, s) ensures m == n { LeastUnique(m, n, s); }
      }
      var m :| m in s && IsLeast(m, s);
      var rest := Sorted(s - {m});
      LeastCons(m, s, rest);
      [m] + rest
  }

  /** The least element in front of a sorted enumeration of the others enumerates the whole set in order. */
  lemma LeastCons(m: string, s: set<string>, rest: seq<string>)
    requires IsLeast(m, s) && |rest| == |s - {m}| && StrictlySorted(rest)
    requires forall k :: k in s - {m} <==> k in rest
    ensures |[m] + rest| == |s| && StrictlySorted([m] + rest)
    ensures forall k :: k in s <==> k in [m] + rest
  {
    var ks := [m] + rest;
    forall j | 0 <= j < |rest| ensures Less(m, rest[j]) { assert rest[j] in s - {m}; }
    forall i, j | 0 <= i < j < |ks| ensures Less(ks[i], ks[j]) {
      if i > 0 { assert ks[i] == rest[i - 1] && ks[j] == rest[j - 1]; }
      else { assert ks[j] == rest[j - 1]; }
    }
  }

  /** The head of a strictly sorted sequence is the least of its elements. */
  lemma SortedHeadLeast(ks: seq<string>, s: set<string>)
    requires ks != [] && StrictlySorted(ks) && forall k :: k in s <==> k in ks
    ensures IsLeast(ks[0], s)
  {
    forall x | x in s && x != ks[0] ensures Less(ks[0], x) {
      var j :| 0 <= j < |ks| && ks[j] == x;
    }
  }

  lemma SortedTail(ks: seq<string>, s: set<string>)
    requires ks != [] && StrictlySorted(ks) && forall k :: k in s <==> k in ks
    ensures StrictlySorted(ks[1..]) && forall k :: k in s - {ks[0]} <==> k in ks[1..]
  {
    var m, rest := ks[0], ks[1..];
    forall k ensures k in s - {m} <==> k in rest {
      if k in rest {
        var j :| 0 <= j < |rest| && rest[j] == k;
        assert Less(m, ks[j + 1]);
        LessIrreflexive(m);
      }
      if k in s - {m} {
        var j :| 0 <= j < |ks| && ks[j] == k;
        assert rest[j - 1] == k;
      }
    }
  }

  lemma SortedCons(s: set<string>)
    requires s != {}
    ensures var ks := Sorted(s); ks != [] && ks[1..] == Sorted(s - {ks[0]})
  {
  }

  /** A strictly sorted sequence holding exactly the elements of `s` is `sorted(s)`. */
  lemma {:induction false} SortedUnique(ks: seq<string>, s: set<string>)
    requires StrictlySorted(ks) && forall k :: k in s <==> k in ks
    ensures ks == Sorted(s)
    decreases |ks|
  {
    if ks == [] {
      assert s == {};
    } else {
      var ss := Sorted(s);
      assert ss != [] by { assert ks[0] in s; }
      assert ks[0] == ss[0] by {
        SortedHeadLeast(ks, s);
        SortedHeadLeast(ss, s);
        LeastUnique(ks[0], ss[0], s);
      }
      assert ks[1..] == ss[1..] by {
        SortedTail(ks, s);
        SortedUnique(ks[1..], s - {ks[0]});
        SortedCons(s);
      }
      SameHeadTail(ks, ss);
    }
  }

  lemma SameHeadTail(a: seq<string>, b: seq<string>)
    requires a != [] && b != [] && a[0] == b[0] && a[1..] == b[1..]
    ensures a == b
  {
    assert a == [a[0]] + a[1..] && b == [b[0]] + b[1..];
  }

  // --------------------------------------------------------------- format

  function Spaces(n: nat): (r: string)
    ensures |r| == n && AllSpace(r) && forall i :: 0 <= i < n ==> r[i] == ' '
  {
    if n == 0 then "" else " " + Spaces(n - 1)
  }

  /** `'{:w}'.format(s)`: `s` left-justified, padded with spaces to at least `width` characters. */
  function PadRight(s: string, width: nat): (r: string)
    ensures |r| == (if |s| < width then width else |s|)
    ensures r[..|s|] == s && forall i :: |s| <= i < |r| ==> r[i] == ' '
  {
    if |s| < width then s + Spaces(width - |s|) else s
  }
}
