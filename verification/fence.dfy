/**
 * The fenced-CSS pattern of the plugin, /`{3}css\n([\s\S]*)`{3}/ig, written out as an
 * explicit scan, together with String.prototype.trim.
 *
 * An opening is three backticks, the tag `css` in any ASCII case (the `i` flag) and a
 * line feed. The capture group is greedy, so it runs up to the LAST three backticks that
 * start at or after the end of the opening. A global regex is applied by scanning start
 * positions from `lastIndex` (initially 0); after a match, scanning resumes at the end of
 * the matched text. `MatchesFrom` follows exactly that procedure, so that the facts proved
 * below (at most one match; the capture spans any text between two blocks) are consequences
 * of the pattern and not of the way it is modelled.
 */
module Fence {
  import opened Wrappers

  /** Three backticks start at position j of s. */
  predicate TicksAt(s: string, j: int)
  {
    0 <= j && j + 3 <= |s| && s[j] == '`' && s[j + 1] == '`' && s[j + 2] == '`'
  }

  /** The opening "```css\n" (tag in any case) starts at position p of s. */
  predicate OpensAt(s: string, p: int)
  {
    TicksAt(s, p) && p + 7 <= |s|
    && (s[p + 3] == 'c' || s[p + 3] == 'C')
    && (s[p + 4] == 's' || s[p + 4] == 'S')
    && (s[p + 5] == 's' || s[p + 5] == 'S')
    && s[p + 6] == '\n'
  }

  /** Where the greedy `[\s\S]*` stops: the last ``` starting at or after `from`. */
  function LastTicks(s: string, from: nat): (r: Option<nat>)
    decreases |s| - from
    ensures r.Some? ==> from <= r.value && TicksAt(s, r.value)
    ensures r.Some? ==> forall k :: from <= k && TicksAt(s, k) ==> k <= r.value
    ensures r.None? ==> forall k :: from <= k ==> !TicksAt(s, k)
  {
    if from + 3 > |s| then None
    else match LastTicks(s, from + 1)
      case Some(j) => Some(j)
      case None => if TicksAt(s, from) then Some(from) else None
  }

  /** The first opening at or after `from`. */
  function FirstOpen(s: string, from: nat): (r: Option<nat>)
    decreases |s| - from
    ensures r.Some? ==> from <= r.value && OpensAt(s, r.value)
    ensures r.Some? ==> forall q :: from <= q < r.value ==> !OpensAt(s, q)
    ensures r.None? ==> forall q :: from <= q ==> !OpensAt(s, q)
  {
    if from >= |s| then None
    else if OpensAt(s, from) then Some(from)
    else FirstOpen(s, from + 1)
  }

  /**
   * A match of the pattern: the opening starts at `start`, the closing ``` at `close`.
   * The matched text is s[start..close + 3] and the capture group is s[start + 7..close].
   */
  datatype Match = Match(start: nat, close: nat)

  /** The match the pattern makes when tried at position p, if any. */
  function MatchAt(s: string, p: nat): (r: Option<Match>)
    ensures r.Some? ==> r.value.start == p && OpensAt(s, p)
    ensures r.Some? ==> p + 7 <= r.value.close && TicksAt(s, r.value.close)
    ensures r.Some? ==> forall k :: p + 7 <= k && TicksAt(s, k) ==> k <= r.value.close
    ensures r.None? <==> !OpensAt(s, p) || forall k :: p + 7 <= k ==> !TicksAt(s, k)
  {
    if !OpensAt(s, p) then None
    else match LastTicks(s, p + 7)
      case None => None
      case Some(j) => Some(Match(p, j))
  }

  /** The regex engine's search from `lastIndex == from`: the first position that matches. */
  function NextMatch(s: string, from: nat): (r: Option<Match>)
    decreases |s| - from
    ensures r.Some? ==> from <= r.value.start && MatchAt(s, r.value.start) == r
    ensures r.Some? ==> forall q :: from <= q < r.value.start ==> MatchAt(s, q).None?
    ensures r.None? ==> forall q :: from <= q ==> MatchAt(s, q).None?
  {
    if from >= |s| then None
    else if MatchAt(s, from).Some? then MatchAt(s, from)
    else NextMatch(s, from + 1)
  }

  /** The captures `matchAll` yields, in order, when scanning starts at `from`. */
  function MatchesFrom(s: string, from: nat): (r: seq<string>)
    decreases |s| - from
    ensures r == [] <==> forall q :: from <= q ==> MatchAt(s, q).None?
    ensures r != [] ==>
      NextMatch(s, from).Some?
      && r[0] == s[NextMatch(s, from).value.start + 7..NextMatch(s, from).value.close]
  {
    match NextMatch(s, from)
    case None => []
    case Some(m) => [s[m.start + 7..m.close]] + MatchesFrom(s, m.close + 3)
  }

  /** The captures of `text.matchAll(/`{3}css\n([\s\S]*)`{3}/ig)`, in order. */
  function Captures(s: string): seq<string>
  {
    MatchesFrom(s, 0)
  }

  /**
   * Reference description of the captures: the text from just after the first opening
   * to the last ``` that starts after it, or nothing when there is no such ```.
   */
  function FencedCapture(s: string): seq<string>
  {
    match FirstOpen(s, 0)
    case None => []
    case Some(p) =>
      match LastTicks(s, p + 7)
      case None => []
      case Some(j) => [s[p + 7..j]]
  }

  /** Once a match has been made, the scan that resumes after it finds nothing more. */
  lemma NothingAfterMatch(s: string, m: Match)
    requires MatchAt(s, m.start) == Some(m)
    ensures NextMatch(s, m.close + 3).None?
  {
    forall q | m.close + 3 <= q
      ensures MatchAt(s, q).None?
    {
      assert !TicksAt(s, q);
    }
  }

  /** When the first opening has no later ```, no position matches at all. */
  lemma NoMatchWithoutClose(s: string, p: nat)
    requires FirstOpen(s, 0) == Some(p) && LastTicks(s, p + 7).None?
    ensures NextMatch(s, 0).None?
  {
    forall q: nat | true
      ensures MatchAt(s, q).None?
    {
      if p <= q {
        assert LastTicks(s, q + 7).None?;
      }
    }
  }

  /** The scan agrees with the reference description of the capture. */
  lemma {:induction false} CapturesAreFenced(s: string)
    ensures Captures(s) == FencedCapture(s)
  {
    match FirstOpen(s, 0) {
      case None =>
        assert NextMatch(s, 0).None?;
      case Some(p) =>
        match LastTicks(s, p + 7) {
          case None =>
            NoMatchWithoutClose(s, p);
          case Some(j) =>
            assert MatchAt(s, p) == Some(Match(p, j));
            var m := NextMatch(s, 0).value;
            assert m == Match(p, j);
            NothingAfterMatch(s, m);
            assert MatchesFrom(s, j + 3) == [];
        }
    }
  }

  /** Because the capture is greedy, `matchAll` yields at most one match. */
  lemma AtMostOneMatch(s: string)
    ensures |Captures(s)| <= 1
  {
    CapturesAreFenced(s);
  }

  /** A fenced css block as a chat message writes it. */
  function Block(body: string): string
  {
    "```css\n" + body + "```"
  }

  /**
   * Two fenced blocks yield ONE capture that holds the first body, its closing fence,
   * the text between the blocks, the second opening and the second body.
   */
  lemma TwoBlocksMerge(a: string, between: string, b: string)
    ensures Captures(Block(a) + between + Block(b)) == [a + "```" + between + "```css\n" + b]
  {
    var s := Block(a) + between + Block(b);
    var n := |s|;
    assert OpensAt(s, 0);
    assert FirstOpen(s, 0) == Some(0);
    assert TicksAt(s, n - 3);
    assert LastTicks(s, 7) == Some(n - 3);
    CapturesAreFenced(s);
    assert s[7..n - 3] == a + "```" + between + "```css\n" + b;
  }

  /** The code points String.prototype.trim removes: WhiteSpace and LineTerminator. */
  const TrimmableChars: set<char> := {
    '\t', '\n', '\U{0B}', '\U{0C}', '\r', ' ', '\U{A0}', '\U{1680}',
    '\U{2000}', '\U{2001}', '\U{2002}', '\U{2003}', '\U{2004}', '\U{2005}',
    '\U{2006}', '\U{2007}', '\U{2008}', '\U{2009}', '\U{200A}',
    '\U{2028}', '\U{2029}', '\U{202F}', '\U{205F}', '\U{3000}', '\U{FEFF}'
  }

  predicate IsTrimmable(c: char)
  {
    c in TrimmableChars
  }

  /** The first position at or after `from` that is not trimmable (|s| when there is none). */
  function TrimLeft(s: string, from: nat): (i: nat)
    requires from <= |s|
    decreases |s| - from
    ensures from <= i <= |s|
    ensures forall k :: from <= k < i ==> IsTrimmable(s[k])
    ensures i == |s| || !IsTrimmable(s[i])
  {
    if from < |s| && IsTrimmable(s[from]) then TrimLeft(s, from + 1) else from
  }

  /** The end of s[lo..hi] once its trailing trimmable code points are cut off. */
  function TrimRight(s: string, lo: nat, hi: nat): (j: nat)
    requires lo <= hi <= |s|
    decreases hi - lo
    ensures lo <= j <= hi
    ensures forall k :: j <= k < hi ==> IsTrimmable(s[k])
    ensures j == lo || !IsTrimmable(s[j - 1])
  {
    if lo < hi && IsTrimmable(s[hi - 1]) then TrimRight(s, lo, hi - 1) else hi
  }

  /** String.prototype.trim. */
  function Trim(s: string): (r: string)
    ensures |r| <= |s|
    ensures r == [] || (!IsTrimmable(r[0]) && !IsTrimmable(r[|r| - 1]))
  {
    var i := TrimLeft(s, 0);
    var j := TrimRight(s, i, |s|);
    assert i < j ==> s[i..j][0] == s[i] && s[i..j][j - i - 1] == s[j - 1];
    s[i..j]
  }

  /** `trim()` returns a slice of s, and everything it cuts off on either side is trimmable. */
  lemma TrimIsSlice(s: string)
    ensures var r := Trim(s); var i := TrimLeft(s, 0);
      i + |r| <= |s| && r == s[i..i + |r|]
      && (forall k :: 0 <= k < i ==> IsTrimmable(s[k]))
      && (forall k :: i + |r| <= k < |s| ==> IsTrimmable(s[k]))
  {
    var i := TrimLeft(s, 0);
    var j := TrimRight(s, i, |s|);
    assert Trim(s) == s[i..j] && |s[i..j]| == j - i;
  }
}
