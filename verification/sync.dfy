/**
 * The content the message-update handler computes from a message's text
 * (index.jsx, `watchSnippets`): every capture of the fenced-CSS pattern, trimmed and
 * followed by a line feed, concatenated in order.
 */
module Sync {
  import opened Fence

  /** `content += `${capture.trim()}\n`` over the captures, in order. */
  function Joined(captures: seq<string>): (r: string)
    ensures r == "" <==> captures == []
    ensures captures != [] ==> r[|r| - 1] == '\n'
    ensures |r| >= |captures|
  {
    if captures == [] then ""
    else Joined(captures[..|captures| - 1]) + Trim(captures[|captures| - 1]) + "\n"
  }

  /** One capture contributes its trimmed text and one line feed. */
  lemma JoinedOne(c: string)
    ensures Joined([c]) == Trim(c) + "\n"
  {
    assert [c][..0] == [];
  }

  /** What the handler's content is, given that the pattern yields at most one capture. */
  lemma JoinedCaptures(text: string)
    ensures Captures(text) != [] ==>
      |Captures(text)| == 1 && Joined(Captures(text)) == Trim(Captures(text)[0]) + "\n"
  {
    AtMostOneMatch(text);
    var cs := Captures(text);
    if cs != [] {
      assert cs == [cs[0]];
      JoinedOne(cs[0]);
    }
  }

  /**
   * The handler's loop: `for (const match of matches) content += `${match[1].trim()}\n``,
   * starting from "", over the captures `matchAll` yields.
   */
  method AccumulateContent(captures: seq<string>) returns (content: string)
    ensures content == Joined(captures)
    ensures content == "" <==> captures == []
    ensures captures != [] ==> content[|content| - 1] == '\n'
  {
    content := "";
    var i := 0;
    while i < |captures|
      invariant 0 <= i <= |captures|
      invariant content == Joined(captures[..i])
      invariant content == "" <==> i == 0
    {
      var snippet := Trim(captures[i]);
      assert captures[..i + 1][..i] == captures[..i];
      content := content + snippet + "\n";
      i := i + 1;
    }
    assert captures[..i] == captures;
  }

  /**
   * The extracted content is empty, or one trimmed capture followed by exactly one line
   * feed: the character before that line feed, if any, is not trimmable, and the content
   * does not start with a trimmable character unless it is the lone line feed.
   */
  lemma ContentShape(text: string)
    ensures var c := Joined(Captures(text));
      c == "" || (c[|c| - 1] == '\n'
        && (|c| == 1 || (!IsTrimmable(c[0]) && !IsTrimmable(c[|c| - 2]))))
  {
    AtMostOneMatch(text);
    var cs := Captures(text);
    if cs != [] {
      assert cs == [cs[0]];
      JoinedOne(cs[0]);
      var t := Trim(cs[0]);
      var c := t + "\n";
      assert |c| > 1 ==> c[0] == t[0] && c[|c| - 2] == t[|t| - 1];
    }
  }

  /** Text with no fenced block yields the empty content (the record is emptied, not removed). */
  lemma NoFenceEmptyContent(text: string)
    requires FirstOpen(text, 0).None?
    ensures Joined(Captures(text)) == ""
  {
    CapturesAreFenced(text);
  }

  /**
   * A message holding two fenced blocks yields one content that carries the text between
   * them, fence markers included.
   */
  lemma TwoBlocksContent(a: string, between: string, b: string)
    ensures Joined(Captures(Block(a) + between + Block(b)))
      == Trim(a + "```" + between + "```css\n" + b) + "\n"
  {
    TwoBlocksMerge(a, between, b);
    JoinedOne(a + "```" + between + "```css\n" + b);
  }
}
