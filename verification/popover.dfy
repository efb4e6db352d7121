/**
 * Where `patchSnippetButton` (index.jsx) puts the snippet button among the children of a
 * message's mini popover. The popover's children are edited in place with
 * Array.prototype.splice, whose argument rules are modelled in `Splice`.
 *
 * `findInReactTree` searches the children depth first and visits a node before its
 * descendants, so the node it finds lies in the subtree of the first child that holds a
 * SnippetButton, and is that child itself when the child is a SnippetButton. The lookup
 * `buttons.findIndex(n => n === found)` then gives that child's index, or -1 when the
 * button found is nested deeper.
 */
module Popover {
  import opened Wrappers
  import Fence

  /** A React child: text, or an element with a component type name and children. */
  datatype Element = Text(text: string) | Node(typeName: string, children: seq<Element>)

  predicate IsSnippetButton(e: Element)
  {
    e.Node? && e.typeName == "SnippetButton"
  }

  /** e or one of its descendants is a SnippetButton. */
  predicate HoldsButton(e: Element)
  {
    match e
    case Text(_) => false
    case Node(_, cs) => IsSnippetButton(e) || exists i :: 0 <= i < |cs| && HoldsButton(cs[i])
  }

  /** The first child, at or after `from`, whose subtree holds a SnippetButton. */
  function FirstHolder(children: seq<Element>, from: nat): (r: Option<nat>)
    decreases |children| - from
    ensures r.Some? ==> from <= r.value < |children| && HoldsButton(children[r.value])
    ensures r.Some? ==> forall k :: from <= k < r.value ==> !HoldsButton(children[k])
    ensures r.None? ==> forall k :: from <= k < |children| ==> !HoldsButton(children[k])
  {
    if from >= |children| then None
    else if HoldsButton(children[from]) then Some(from)
    else FirstHolder(children, from + 1)
  }

  /** Where splice starts: a negative start counts from the end, both are clamped. */
  function SpliceStart(length: nat, start: int): (a: nat)
    ensures a <= length
    ensures 0 <= start <= length ==> a == start
    ensures start < 0 && 0 <= length + start ==> a == length + start
    ensures start > length ==> a == length
    ensures length + start < 0 ==> a == 0
  {
    if start < 0 then (if length + start < 0 then 0 else length + start)
    else if start > length then length
    else start
  }

  /** How many elements splice removes from position a: deleteCount clamped to what is left. */
  function SpliceDeleteCount(length: nat, a: nat, deleteCount: int): (d: nat)
    requires a <= length
    ensures d <= length - a
    ensures deleteCount <= 0 ==> d == 0
    ensures 0 <= deleteCount <= length - a ==> d == deleteCount
    ensures deleteCount > length - a ==> d == length - a
  {
    if deleteCount < 0 then 0 else if deleteCount > length - a then length - a else deleteCount
  }

  /**
   * Array.prototype.splice(start, deleteCount, ...items): the array it leaves behind. The
   * elements before the start are kept, the items follow them, and after the items come
   * the elements that followed the deleted ones.
   */
  function Splice<T>(s: seq<T>, start: int, deleteCount: int, items: seq<T>): (r: seq<T>)
    ensures var a := SpliceStart(|s|, start); var d := SpliceDeleteCount(|s|, a, deleteCount);
      |r| == |s| - d + |items|
      && r[..a] == s[..a] && r[a..a + |items|] == items && r[a + |items|..] == s[a + d..]
  {
    var a := SpliceStart(|s|, start);
    s[..a] + items + s[a + SpliceDeleteCount(|s|, a, deleteCount)..]
  }

  /** splice(k, 1, x) with 0 <= k < length replaces the element at k. */
  lemma SpliceReplaces<T>(s: seq<T>, k: nat, x: T)
    requires k < |s|
    ensures Splice(s, k, 1, [x]) == s[k := x]
  {
    assert Splice(s, k, 1, [x]) == s[..k] + [x] + s[k + 1..];
  }

  /** splice(length - 1, 0, x) puts x just before the last element, or alone into []. */
  lemma SpliceBeforeLast<T>(s: seq<T>, x: T)
    ensures |s| > 0 ==> Splice(s, |s| - 1, 0, [x]) == s[..|s| - 1] + [x] + [s[|s| - 1]]
    ensures |s| == 0 ==> Splice(s, |s| - 1, 0, [x]) == [x]
  {
    if |s| > 0 {
      assert s[|s| - 1..] == [s[|s| - 1]];
    }
  }

  /** The rendered popover whose children the patch edits. */
  class PopoverRender {
    var children: seq<Element>

    constructor (children: seq<Element>)
      ensures this.children == children
    {
      this.children := children;
    }

    /** `children.splice(start, deleteCount, ...items)`. */
    method SpliceChildren(start: int, deleteCount: int, items: seq<Element>)
      modifies this
      ensures children == Splice(old(children), start, deleteCount, items)
    {
      children := Splice(children, start, deleteCount, items);
    }

    /**
     * The placement rule for a message with text `content`. An existing SnippetButton
     * child is replaced where it stands; a button found only deeper in the tree makes
     * `findIndex` return -1, and the last child is replaced; with no button anywhere and
     * a fenced css block in the text, the new button goes just before the last child;
     * otherwise nothing changes.
     */
    method PatchSnippetButton(content: string, button: Element)
      modifies this
      ensures var k := FirstHolder(old(children), 0);
        k.Some? && IsSnippetButton(old(children)[k.value]) ==>
          children == old(children)[k.value := button]
      ensures var k := FirstHolder(old(children), 0);
        k.Some? && !IsSnippetButton(old(children)[k.value]) ==>
          children == old(children)[|old(children)| - 1 := button]
      ensures FirstHolder(old(children), 0).None? && Fence.Captures(content) != [] ==>
        |children| == |old(children)| + 1
        && (|old(children)| == 0 ==> children == [button])
        && (|old(children)| > 0 ==>
              children == old(children)[..|old(children)| - 1] + [button] + [old(children)[|old(children)| - 1]])
      ensures FirstHolder(old(children), 0).None? && Fence.Captures(content) == [] ==>
        children == old(children)
    {
      var found := FirstHolder(children, 0);
      if found.Some? {
        var index := if IsSnippetButton(children[found.value]) then found.value else -1;
        SpliceReplaces(children, if index == -1 then |children| - 1 else index, button);
        SpliceChildren(index, 1, [button]);
      } else if Fence.Captures(content) != [] {
        SpliceBeforeLast(children, button);
        SpliceChildren(|children| - 1, 0, [button]);
      }
    }
  }
}
