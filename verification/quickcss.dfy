/**
 * `watchQuickCSSFile` (index.jsx): the value of `moduleManager._quickCSS` is read ONCE,
 * when the watcher is set up. Every compile writes the compiler output into the Quick CSS
 * `<style>` element and reads the element's `innerHTML` back; it compares that text with
 * the fixed baseline, and on a difference writes it to `moduleManager._quickCSS` and calls
 * `fetchSnippets()`. The baseline itself is never refreshed.
 */
module QuickCss {
  /**
   * What `innerHTML` reads back from a `<style>` element after it was set to `written`.
   * The HTML parser turns every CR LF pair and every lone CR into LF, and the raw-text
   * tokenizer replaces U+0000 with U+FFFD; everything else comes back as written.
   */
  function ReadBack(written: string): (r: string)
    ensures |r| <= |written|
    ensures forall i :: 0 <= i < |r| ==> r[i] != '\r' && r[i] != '\0'
  {
    if written == [] then []
    else if written[0] == '\r' then
      "\n" + ReadBack(if |written| > 1 && written[1] == '\n' then written[2..] else written[1..])
    else [if written[0] == '\0' then '\U{FFFD}' else written[0]] + ReadBack(written[1..])
  }

  /** A text with no CR and no U+0000 reads back unchanged. */
  lemma {:induction false} ReadBackKeepsClean(s: string)
    requires forall i :: 0 <= i < |s| ==> s[i] != '\r' && s[i] != '\0'
    ensures ReadBack(s) == s
  {
    if s != [] {
      ReadBackKeepsClean(s[1..]);
      assert s == [s[0]] + s[1..];
    }
  }

  /** Writing back what was read changes nothing more. */
  lemma ReadBackIdempotent(s: string)
    ensures ReadBack(ReadBack(s)) == ReadBack(s)
  {
    ReadBackKeepsClean(ReadBack(s));
  }

  /**
   * Read-back works piece by piece: a text that does not end in CR reads back the same
   * whether or not more text follows it.
   */
  lemma {:induction false} ReadBackConcat(a: string, b: string)
    requires a == [] || a[|a| - 1] != '\r'
    decreases |a|, 1
    ensures ReadBack(a + b) == ReadBack(a) + ReadBack(b)
  {
    if a == [] {
      assert a + b == b;
    } else if a[0] == '\r' {
      ReadBackConcatAfterCr(a, b);
    } else {
      ReadBackConcatAfterChar(a, b);
    }
  }

  /** `ReadBackConcat` when `a` starts with CR, which cannot be its last character. */
  lemma {:induction false} ReadBackConcatAfterCr(a: string, b: string)
    requires |a| > 0 && a[0] == '\r' && a[|a| - 1] != '\r'
    decreases |a|, 0
    ensures ReadBack(a + b) == ReadBack(a) + ReadBack(b)
  {
    var w := a + b;
    var k := if a[1] == '\n' then 2 else 1;
    assert w[0] == '\r' && w[1] == a[1] && w[k..] == a[k..] + b;
    assert a[k..] == [] || a[k..][|a[k..]| - 1] == a[|a| - 1];
    ReadBackConcat(a[k..], b);
  }

  /** `ReadBackConcat` when `a` starts with a character other than CR. */
  lemma {:induction false} ReadBackConcatAfterChar(a: string, b: string)
    requires |a| > 0 && a[0] != '\r' && a[|a| - 1] != '\r'
    decreases |a|, 0
    ensures ReadBack(a + b) == ReadBack(a) + ReadBack(b)
  {
    var w := a + b;
    assert w[0] == a[0] && w[1..] == a[1..] + b;
    ReadBackConcat(a[1..], b);
  }

  /** A CR LF pair reads back as one LF. */
  lemma ReadBackOfCrLf()
    ensures ReadBack("\r\n") == "\n"
  {
    var crlf := "\r\n";
    assert crlf[0] == '\r' && crlf[1] == '\n' && crlf[2..] == [];
  }

  /** A CR that is not followed by LF reads back as LF. */
  lemma LoneCrReadsBackAsLf(rest: string)
    requires rest == [] || rest[0] != '\n'
    ensures ReadBack("\r" + rest) == "\n" + ReadBack(rest)
  {
    var w := "\r" + rest;
    assert w[0] == '\r' && w[1..] == rest;
  }

  /** U+0000 reads back as U+FFFD. */
  lemma NulReadsBackAsReplacement(rest: string)
    ensures ReadBack("\0" + rest) == "\U{FFFD}" + ReadBack(rest)
  {
    var w := "\0" + rest;
    assert w[0] == '\0' && w[1..] == rest;
  }

  /** A line ending in CR LF reads back ending in LF. */
  lemma CrLfReadsBackAsLf(line: string)
    requires forall i :: 0 <= i < |line| ==> line[i] != '\r' && line[i] != '\0'
    ensures ReadBack(line + "\r\n") == line + "\n"
  {
    ReadBackConcat(line, "\r\n");
    ReadBackKeepsClean(line);
    ReadBackOfCrLf();
  }


  /**
   * What a compile touches: `moduleManager._quickCSS`, the style element's `innerHTML`,
   * and how many times `fetchSnippets` has been called.
   */
  datatype Watch = Watch(quickCss: string, innerHtml: string, fetches: nat)

  /** One run of `compile` with compiler output `output`. */
  function Compile(baseline: string, w: Watch, output: string): Watch
  {
    var html := ReadBack(output);
    if baseline != html then Watch(html, html, w.fetches + 1)
    else w.(innerHtml := html)
  }

  /** Successive compiles, one per output, oldest first. */
  function CompileAll(baseline: string, w: Watch, outputs: seq<string>): Watch
    decreases |outputs|
  {
    if outputs == [] then w
    else CompileAll(baseline, Compile(baseline, w, outputs[0]), outputs[1..])
  }

  /** How many outputs read back as something other than the baseline. */
  function CountDiffering(outputs: seq<string>, baseline: string): nat
  {
    if outputs == [] then 0
    else (if ReadBack(outputs[0]) != baseline then 1 else 0) + CountDiffering(outputs[1..], baseline)
  }

  /** The latest read-back text that differs from the baseline, or `otherwise` when none does. */
  function LastDiffering(outputs: seq<string>, baseline: string, otherwise: string): string
  {
    if outputs == [] then otherwise
    else if ReadBack(outputs[|outputs| - 1]) != baseline then ReadBack(outputs[|outputs| - 1])
    else LastDiffering(outputs[..|outputs| - 1], baseline, otherwise)
  }

  /** Compiling one more output after a run is the same as running the longer list. */
  lemma {:induction false} CompileAllSnoc(baseline: string, w: Watch, outputs: seq<string>, last: string)
    decreases |outputs|
    ensures CompileAll(baseline, w, outputs + [last])
      == Compile(baseline, CompileAll(baseline, w, outputs), last)
  {
    if outputs == [] {
      assert outputs + [last] == [last];
    } else {
      assert (outputs + [last])[1..] == outputs[1..] + [last];
      CompileAllSnoc(baseline, Compile(baseline, w, outputs[0]), outputs[1..], last);
    }
  }

  /** `fetchSnippets` runs once for every compile whose output differs from the baseline. */
  lemma {:induction false} FetchesCountDiffering(baseline: string, w: Watch, outputs: seq<string>)
    decreases |outputs|
    ensures CompileAll(baseline, w, outputs).fetches == w.fetches + CountDiffering(outputs, baseline)
  {
    if outputs != [] {
      FetchesCountDiffering(baseline, Compile(baseline, w, outputs[0]), outputs[1..]);
    }
  }

  /**
   * After any run of compiles, `moduleManager._quickCSS` holds the latest output that
   * differed from the baseline, and keeps its old value when none did.
   */
  lemma {:induction false} QuickCssIsLastDiffering(baseline: string, w: Watch, outputs: seq<string>)
    decreases |outputs|
    ensures CompileAll(baseline, w, outputs).quickCss == LastDiffering(outputs, baseline, w.quickCss)
  {
    if outputs != [] {
      var init := outputs[..|outputs| - 1];
      var last := outputs[|outputs| - 1];
      assert outputs == init + [last];
      CompileAllSnoc(baseline, w, init, last);
      QuickCssIsLastDiffering(baseline, w, init);
    }
  }

  /** The style element always shows the latest compiler output, as read back. */
  lemma {:induction false} InnerHtmlIsLastOutput(baseline: string, w: Watch, outputs: seq<string>)
    requires outputs != []
    ensures CompileAll(baseline, w, outputs).innerHtml == ReadBack(outputs[|outputs| - 1])
  {
    var init := outputs[..|outputs| - 1];
    assert outputs == init + [outputs[|outputs| - 1]];
    CompileAllSnoc(baseline, w, init, outputs[|outputs| - 1]);
  }

  /**
   * The comparison is with the fixed baseline, not with the previous output: the same
   * changed output compiled twice fetches twice.
   */
  lemma RepeatedChangeFetchesAgain(baseline: string, w: Watch, changed: string)
    requires ReadBack(changed) != baseline
    ensures CompileAll(baseline, w, [changed, changed]).fetches == w.fetches + 2
  {
    FetchesCountDiffering(baseline, w, [changed, changed]);
    assert [changed, changed][1..] == [changed];
    assert [changed][1..] == [];
    assert CountDiffering([changed], baseline) == 1;
    assert CountDiffering([changed, changed], baseline) == 2;
  }

  /**
   * Compiling back to an output that reads back as the baseline neither fetches nor
   * resets `moduleManager._quickCSS`, which keeps the earlier changed text.
   */
  lemma RevertKeepsChangedQuickCss(baseline: string, w: Watch, changed: string, reverted: string)
    requires ReadBack(changed) != baseline && ReadBack(reverted) == baseline
    ensures var after := CompileAll(baseline, w, [changed, reverted]);
      after.quickCss == ReadBack(changed) && after.innerHtml == baseline && after.fetches == w.fetches + 1
  {
    QuickCssIsLastDiffering(baseline, w, [changed, reverted]);
    FetchesCountDiffering(baseline, w, [changed, reverted]);
    assert [changed, reverted][1..] == [reverted];
    assert [reverted][1..] == [];
    assert CountDiffering([reverted], baseline) == 0;
    assert CountDiffering([changed, reverted], baseline) == 1;
    InnerHtmlIsLastOutput(baseline, w, [changed, reverted]);
  }

  /**
   * A baseline holding a CR or U+0000 (a Quick CSS file saved with CR LF line endings,
   * say) can never equal a read-back text, so every compile fetches.
   */
  lemma {:induction false} UncleanBaselineAlwaysFetches(baseline: string, w: Watch, outputs: seq<string>)
    requires exists i :: 0 <= i < |baseline| && (baseline[i] == '\r' || baseline[i] == '\0')
    ensures CompileAll(baseline, w, outputs).fetches == w.fetches + |outputs|
  {
    FetchesCountDiffering(baseline, w, outputs);
    AllDiffer(baseline, outputs);
  }

  lemma {:induction false} AllDiffer(baseline: string, outputs: seq<string>)
    requires exists i :: 0 <= i < |baseline| && (baseline[i] == '\r' || baseline[i] == '\0')
    ensures CountDiffering(outputs, baseline) == |outputs|
  {
    if outputs != [] {
      AllDiffer(baseline, outputs[1..]);
      var i :| 0 <= i < |baseline| && (baseline[i] == '\r' || baseline[i] == '\0');
      var html := ReadBack(outputs[0]);
      assert i >= |html| || html[i] != baseline[i];
    }
  }

  /** The fields of powercord's module manager that `compile` reads and writes. */
  class ModuleManager {
    var quickCss: string
    var quickCssElementHtml: string

    constructor (quickCss: string, html: string)
      ensures this.quickCss == quickCss && quickCssElementHtml == html
    {
      this.quickCss := quickCss;
      quickCssElementHtml := html;
    }
  }

  /** The `compile` closure made by `watchQuickCSSFile`, with the baseline it captured. */
  class Watcher {
    const manager: ModuleManager
    const baseline: string
    /** Calls made to `snippetManager.fetchSnippets()`. */
    var fetches: nat

    ghost function View(): Watch
      reads this, manager
    {
      Watch(manager.quickCss, manager.quickCssElementHtml, fetches)
    }

    /**
     * `watchQuickCSSFile`: captures `_quickCSS` as the baseline, then runs the first
     * compile, whose output is `firstOutput`.
     */
    constructor (manager: ModuleManager, firstOutput: string)
      modifies manager
      ensures this.manager == manager && baseline == old(manager.quickCss)
      ensures View() == Compile(baseline, old(Watch(manager.quickCss, manager.quickCssElementHtml, 0)), firstOutput)
    {
      this.manager := manager;
      baseline := manager.quickCss;
      fetches := 0;
      new;
      Run(firstOutput);
    }

    /**
     * One `compile`: write the output into the element, compare what the element reads
     * back with the baseline, and on a difference store it and fetch.
     */
    method Run(output: string)
      modifies this, manager
      ensures View() == Compile(baseline, old(View()), output)
      ensures manager.quickCssElementHtml == ReadBack(output)
      ensures ReadBack(output) != baseline <==> fetches == old(fetches) + 1
      ensures ReadBack(output) != baseline ==> manager.quickCss == ReadBack(output)
      ensures ReadBack(output) == baseline ==> manager.quickCss == old(manager.quickCss) && fetches == old(fetches)
    {
      manager.quickCssElementHtml := ReadBack(output);
      if baseline != manager.quickCssElementHtml {
        manager.quickCss := manager.quickCssElementHtml;
        fetches := fetches + 1;
      }
    }
  }
}
