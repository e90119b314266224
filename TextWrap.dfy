/**
 * `textwrap.dedent` as Python 2.7.9 and later define it: every line made only of
 * spaces and tabs becomes empty, then the longest run of leading spaces and
 * tabs common to all remaining (non-blank) lines is removed from each of them.
 */
module TextWrap {
  import opened Wrappers
  import opened Strings

  /** The characters dedent treats as indentation. */
  predicate IsBlank(c: char) {
    c == ' ' || c == '\t'
  }

  /** A line that dedent empties: nothing but spaces and tabs (or nothing at all). */
  predicate BlankLine(l: string) {
    forall i :: 0 <= i < |l| ==> IsBlank(l[i])
  }

  /** The first index at or after `k` that is not a space or tab, or |l|. */
  function IndentEnd(l: string, k: nat): (n: nat)
    requires k <= |l|
    ensures k <= n <= |l| && (n < |l| ==> !IsBlank(l[n]))
    ensures forall m :: k <= m < n ==> IsBlank(l[m])
    decreases |l| - k
  {
    if k == |l| || !IsBlank(l[k]) then k else IndentEnd(l, k + 1)
  }

  /** The leading spaces and tabs of a line. */
  function Indent(l: string): (r: string)
    ensures IsPrefix(r, l) && BlankLine(r)
    ensures |r| < |l| ==> !IsBlank(l[|r|])
    ensures |r| < |l| <==> !BlankLine(l)
  {
    var n := IndentEnd(l, 0);
    assert BlankLine(l[..n]) by {
      forall i | 0 <= i < n ensures IsBlank(l[..n][i]) { assert l[..n][i] == l[i]; }
    }
    l[..n]
  }

  /** The first index at or after `k` where `a` and `b` differ or one of them ends. */
  function CommonEnd(a: string, b: string, k: nat): (n: nat)
    requires k <= |a| && k <= |b|
    ensures k <= n <= |a| && n <= |b|
    ensures forall m :: k <= m < n ==> a[m] == b[m]
    ensures n == |a| || n == |b| || a[n] != b[n]
    decreases |a| - k
  {
    if k == |a| || k == |b| || a[k] != b[k] then k else CommonEnd(a, b, k + 1)
  }

  /** The longest common prefix of two strings. */
  function CommonPrefix(a: string, b: string): (r: string)
    ensures IsPrefix(r, a) && IsPrefix(r, b)
    ensures |r| == |a| || |r| == |b| || a[|r|] != b[|r|]
  {
    var n := CommonEnd(a, b, 0);
    assert a[..n] == b[..n];
    a[..n]
  }

  /**
   * The margin dedent removes: the longest common prefix of the indents of
   * the lines that are not blank, or None when every line is blank.
   */
  function Margin(ls: seq<string>): (m: Option<string>)
    ensures m.None? <==> forall k :: 0 <= k < |ls| ==> BlankLine(ls[k])
    ensures m.Some? ==> BlankLine(m.value)
    ensures m.Some? ==> forall k :: 0 <= k < |ls| && !BlankLine(ls[k]) ==> IsPrefix(m.value, Indent(ls[k]))
  {
    if ls == [] then None
    else
      var rest := Margin(ls[1..]);
      assert forall k :: 1 <= k < |ls| ==> ls[k] == ls[1..][k - 1];
      if BlankLine(ls[0]) then rest
      else match rest
        case None => Some(Indent(ls[0]))
        case Some(m) => Some(CommonPrefix(Indent(ls[0]), m))
  }

  /** Some non-blank line of `ls` has an indent that `p` is not a prefix of. */
  predicate SomeIndentLacks(ls: seq<string>, p: string) {
    exists k :: 0 <= k < |ls| && !BlankLine(ls[k]) && !IsPrefix(p, Indent(ls[k]))
  }

  lemma SomeIndentLacksTail(ls: seq<string>, p: string)
    requires |ls| > 0 && SomeIndentLacks(ls[1..], p)
    ensures SomeIndentLacks(ls, p)
  {
    var k :| 0 <= k < |ls[1..]| && !BlankLine(ls[1..][k]) && !IsPrefix(p, Indent(ls[1..][k]));
    assert ls[k + 1] == ls[1..][k];
  }

  /** A line lacking `b + [d]` also lacks `m + [c]` when `m` is a proper prefix of `b` and `b[|m|] != c`. */
  lemma SomeIndentLacksLonger(ls: seq<string>, m: string, b: string, c: char)
    requires |m| < |b| && IsPrefix(m, b) && b[|m|] != c
    requires forall k :: 0 <= k < |ls| && !BlankLine(ls[k]) ==> IsPrefix(b, Indent(ls[k]))
    requires SomeIndentLacks(ls, b + [b[|m|]])
    ensures SomeIndentLacks(ls, m + [c])
  {
    var k :| 0 <= k < |ls| && !BlankLine(ls[k]) && !IsPrefix(b + [b[|m|]], Indent(ls[k]));
    var ik := Indent(ls[k]);
    assert IsPrefix(b, ik);
    if |b| < |ik| {
      assert ik[..|b| + 1] == b + [ik[|b|]];
      assert ik[|m|] == b[|m|];
    } else {
      assert |ik| == |b|;
      assert |m + [c]| <= |ik|;
      assert ik[|m|] == b[|m|];
    }
  }

  /** No longer prefix than the margin is shared by every non-blank line's indent. */
  lemma {:induction false} MarginLongest(ls: seq<string>, c: char)
    requires Margin(ls).Some?
    ensures exists k :: 0 <= k < |ls| && !BlankLine(ls[k]) && !IsPrefix(Margin(ls).value + [c], Indent(ls[k]))
  {
    var rest := Margin(ls[1..]);
    var m := Margin(ls).value;
    if BlankLine(ls[0]) {
      MarginLongest(ls[1..], c);
      SomeIndentLacksTail(ls, m + [c]);
    } else if rest.None? {
      assert !IsPrefix(m + [c], Indent(ls[0]));
    } else {
      var a := Indent(ls[0]);
      var b := rest.value;
      if IsPrefix(m + [c], a) {
        if |m| < |b| {
          assert a[|m|] != b[|m|];
          assert b[|m|] != c;
          MarginLongest(ls[1..], b[|m|]);
          SomeIndentLacksLonger(ls[1..], m, b, c);
        } else {
          assert m == b;
          MarginLongest(ls[1..], c);
        }
        SomeIndentLacksTail(ls, m + [c]);
      }
    }
  }

  /** One line after dedent: blank lines are emptied, others lose the margin. */
  function DedentLine(l: string, margin: string): string {
    if BlankLine(l) then "" else if IsPrefix(margin, l) then l[|margin|..] else l
  }

  function DedentLines(ls: seq<string>): (r: seq<string>)
    ensures |r| == |ls|
  {
    var margin := if Margin(ls).Some? then Margin(ls).value else "";
    seq(|ls|, k requires 0 <= k < |ls| => DedentLine(ls[k], margin))
  }

  /** `textwrap.dedent(text)`: it works line by line, neither adding nor merging lines. */
  function Dedent(text: string): (r: string)
    ensures Lines(r) == DedentLines(Lines(text))
  {
    DedentedLinesSplit(text);
    JoinWith(DedentLines(Lines(text)), "\n")
  }

  /** Dedenting removes no newline and adds none, so splitting the joined result gives the dedented lines back. */
  lemma DedentedLinesSplit(text: string)
    ensures Lines(JoinWith(DedentLines(Lines(text)), "\n")) == DedentLines(Lines(text))
  {
    var ls := Lines(text);
    SplitOnCharPieces(text, '\n');
    var dl := DedentLines(ls);
    forall k | 0 <= k < |dl| ensures '\n' !in dl[k] {
      var margin := if Margin(ls).Some? then Margin(ls).value else "";
      if !BlankLine(ls[k]) && IsPrefix(margin, ls[k]) {
        forall i | 0 <= i < |dl[k]| ensures dl[k][i] != '\n' {
          assert dl[k][i] == ls[k][|margin| + i];
        }
      }
    }
    SplitJoinChar(dl, '\n');
  }

  /**
   * What dedent does to each line: a line of only spaces and tabs becomes
   * empty; every other line loses the margin, which is a prefix of its indent.
   */
  lemma DedentLineByLine(text: string, k: nat)
    requires k < |Lines(text)|
    ensures |Lines(Dedent(text))| == |Lines(text)|
    ensures BlankLine(Lines(text)[k]) ==> Lines(Dedent(text))[k] == ""
    ensures !BlankLine(Lines(text)[k]) ==>
      && Margin(Lines(text)).Some?
      && IsPrefix(Margin(Lines(text)).value, Indent(Lines(text)[k]))
      && Lines(Dedent(text))[k] == Lines(text)[k][|Margin(Lines(text)).value|..]
  {
    var ls := Lines(text);
    var dl := DedentLines(ls);
    assert Lines(Dedent(text)) == dl;
    var margin := if Margin(ls).Some? then Margin(ls).value else "";
    assert dl[k] == DedentLine(ls[k], margin);
    if !BlankLine(ls[k]) {
      assert IsPrefix(margin, Indent(ls[k]));
    }
  }
}
