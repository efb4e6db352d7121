/**
 * The `snippet` command registered by `registerMainCommand` (index.jsx): its usage line,
 * its executor and its autocomplete. The subcommands come from `./commands`, which is not
 * part of this model; it is taken as a plain object whose own keys, in `Object.keys`
 * order, name the subcommands.
 *
 * Looking a property up on a plain object also finds the members every object inherits
 * from Object.prototype. Such a member is truthy but has neither `executor` nor
 * `autocomplete`, so `commands[args[0]]` has three outcomes, modelled by `Property`.
 * A missing first argument is read as the key "undefined", which is also what the
 * template literal of the error description prints.
 */
module Commands {
  /** One entry of `./commands`: `{command, description, executor, autocomplete?}`. */
  datatype Subcommand = Subcommand(command: string, description: string, hasAutocomplete: bool)

  /** The `./commands` object: its own keys in order, and the entry under each. */
  datatype Table = Table(keys: seq<string>, entries: map<string, Subcommand>)

  /** The keys are distinct and are exactly the keys of the entries. */
  predicate ValidTable(t: Table)
  {
    (forall i, j :: 0 <= i < j < |t.keys| ==> t.keys[i] != t.keys[j])
    && (forall k :: k in t.keys ==> k in t.entries)
    && (forall k :: k in t.entries ==> k in t.keys)
  }

  /** The property names every plain object inherits from Object.prototype. */
  const InheritedNames: set<string> := {
    "constructor", "hasOwnProperty", "isPrototypeOf", "propertyIsEnumerable",
    "toString", "toLocaleString", "valueOf", "__proto__",
    "__defineGetter__", "__defineSetter__", "__lookupGetter__", "__lookupSetter__"
  }

  /** What `commands[key]` yields. */
  datatype Property = Own(sub: Subcommand) | Inherited | Missing

  function Lookup(t: Table, key: string): (r: Property)
    ensures r.Own? <==> key in t.entries
    ensures r.Own? ==> r.sub == t.entries[key]
    ensures r.Inherited? <==> key !in t.entries && key in InheritedNames
  {
    if key in t.entries then Own(t.entries[key])
    else if key in InheritedNames then Inherited
    else Missing
  }

  /**
   * `args[0]` used as a property key or in a template literal: the first argument, or
   * "undefined" when there is none.
   */
  function FirstKey(args: seq<string>): (k: string)
    ensures |args| > 0 ==> k == args[0]
    ensures |args| == 0 ==> k == "undefined"
  {
    if |args| == 0 then "undefined" else args[0]
  }

  /** `args.slice(1)`. */
  function Rest(args: seq<string>): (r: seq<string>)
    ensures |args| > 0 ==> args == [args[0]] + r
    ensures |args| == 0 ==> r == []
  {
    if |args| == 0 then [] else args[1..]
  }

  /** `CommandResultColors.ERROR` from `./constants`, which is not part of this model. */
  datatype Color = ErrorColor

  datatype Field = Field(name: string, value: string, inline: bool)

  datatype Embed = Embed(kind: string, color: Color, title: string, description: string, fields: seq<Field>)

  /** The outcome of the executor. */
  datatype Execution =
    | Reply(send: bool, result: Embed)
      /** `subcommand.executor(args.slice(1), this)`; its result is the subcommand's own. */
    | Delegate(sub: Subcommand, args: seq<string>)
      /** `executor` of an inherited member is undefined: calling it throws a TypeError. */
    | Throws

  /** `Object.keys(commands).map(key => ({name: key, value: commands[key].description, inline: true}))`. */
  function Fields(t: Table, keys: seq<string>): (r: seq<Field>)
    requires forall k :: k in keys ==> k in t.entries
    ensures |r| == |keys|
    ensures forall i :: 0 <= i < |keys| ==>
      r[i].name == keys[i] && r[i].value == t.entries[keys[i]].description && r[i].inline
  {
    if keys == [] then []
    else [Field(keys[0], t.entries[keys[0]].description, true)] + Fields(t, keys[1..])
  }

  /** The executor of the `snippet` command. */
  function Execute(t: Table, args: seq<string>): (r: Execution)
    requires ValidTable(t)
    ensures r.Reply? <==> Lookup(t, FirstKey(args)).Missing?
    ensures r.Reply? ==> r == InvalidSubcommand(t, FirstKey(args))
    ensures r.Delegate? <==> FirstKey(args) in t.entries
    ensures r.Delegate? ==> r.sub == t.entries[FirstKey(args)] && r.args == Rest(args)
    ensures r.Throws? <==> Lookup(t, FirstKey(args)).Inherited?
  {
    match Lookup(t, FirstKey(args))
    case Missing => InvalidSubcommand(t, FirstKey(args))
    case Inherited => Throws
    case Own(sub) => Delegate(sub, Rest(args))
  }

  /**
   * The "Invalid Subcommand" reply for the key `key`: not sent to the channel, a rich
   * error embed whose description quotes the key, and one inline field per subcommand,
   * in key order.
   */
  function InvalidSubcommand(t: Table, key: string): (r: Execution)
    requires ValidTable(t)
    ensures r.Reply? && !r.send && r.result.kind == "rich" && r.result.color == ErrorColor
    ensures r.result.title == "Invalid Subcommand"
    ensures OccursAt(r.result.description, key, 1)
    ensures |r.result.fields| == |t.keys|
    ensures forall i :: 0 <= i < |t.keys| ==>
      r.result.fields[i].name == t.keys[i]
      && r.result.fields[i].value == t.entries[t.keys[i]].description
      && r.result.fields[i].inline
  {
    Reply(false, Embed(
      "rich", ErrorColor, "Invalid Subcommand",
      "`" + key + "` is not a valid subcommand. Please specify one of these instead:",
      Fields(t, t.keys)))
  }

  /**
   * The executor as written throws for a first argument that names a member inherited
   * from Object.prototype, where an unknown subcommand was meant to get the
   * "Invalid Subcommand" reply.
   */
  lemma InheritedNameThrows(t: Table)
    requires ValidTable(t) && "toString" !in t.entries
    ensures Execute(t, ["toString"]).Throws?
    ensures ExecuteOwn(t, ["toString"]).Reply?
  {
  }

  /**
   * The executor with an own-property test (`Object.hasOwn(commands, args[0])`): every
   * first argument that is not a subcommand key gets the "Invalid Subcommand" reply,
   * and nothing throws.
   */
  function ExecuteOwn(t: Table, args: seq<string>): (r: Execution)
    requires ValidTable(t)
    ensures !r.Throws?
    ensures r.Reply? <==> FirstKey(args) !in t.entries
    ensures r.Reply? ==> r == InvalidSubcommand(t, FirstKey(args))
    ensures r.Delegate? ==> r.sub == t.entries[FirstKey(args)] && r.args == Rest(args)
    ensures FirstKey(args) !in InheritedNames ==> r == Execute(t, args)
  {
    if FirstKey(args) in t.entries then Delegate(t.entries[FirstKey(args)], Rest(args))
    else InvalidSubcommand(t, FirstKey(args))
  }

  /** `String.prototype.includes`: `needle` occurs in `hay` (the empty string always does). */
  predicate Includes(hay: string, needle: string)
    ensures Includes(hay, needle) ==> |needle| <= |hay|
    ensures needle == [] ==> Includes(hay, needle)
  {
    assert needle == [] ==> OccursAt(hay, needle, 0);
    exists i :: 0 <= i <= |hay| - |needle| && OccursAt(hay, needle, i)
  }

  /** `needle` occurs in `hay` starting at position i. */
  predicate OccursAt(hay: string, needle: string, i: int)
  {
    0 <= i && i + |needle| <= |hay| && hay[i..i + |needle|] == needle
  }

  /** ASCII lower case of one character. */
  function LowerChar(c: char): char
  {
    if 'A' <= c <= 'Z' then (c as int + 32) as char else c
  }

  /**
   * `toLowerCase`, for ASCII letters: no capital is left, every capital becomes the letter
   * 32 code points above it, and every other character is kept.
   */
  function Lower(s: string): (r: string)
    ensures |r| == |s|
    ensures forall i :: 0 <= i < |r| ==> !('A' <= r[i] <= 'Z')
    ensures forall i :: 0 <= i < |s| && 'A' <= s[i] <= 'Z' ==> r[i] as int == s[i] as int + 32
    ensures forall i :: 0 <= i < |s| && !('A' <= s[i] <= 'Z') ==> r[i] == s[i]
  {
    seq(|s|, i requires 0 <= i < |s| => LowerChar(s[i]))
  }

  /** Lower-casing twice is lower-casing once. */
  lemma LowerIdempotent(s: string)
    ensures Lower(Lower(s)) == Lower(s)
  {
    var r := Lower(s);
    assert forall i :: 0 <= i < |r| ==> Lower(r)[i] == r[i];
  }

  /**
   * The positions at or after `from` in `keys` whose subcommand's `command` contains
   * `query`: strictly increasing, so each position appears once and in key order, and
   * exactly the matching ones.
   */
  function MatchPositions(t: Table, keys: seq<string>, query: string, from: nat): (idx: seq<nat>)
    requires forall k :: k in keys ==> k in t.entries
    requires from <= |keys|
    decreases |keys| - from
    ensures forall j :: 0 <= j < |idx| ==> from <= idx[j] < |keys|
    ensures forall j, j' :: 0 <= j < j' < |idx| ==> idx[j] < idx[j']
    ensures forall i :: from <= i < |keys| ==> (i in idx <==> Includes(t.entries[keys[i]].command, query))
  {
    if from == |keys| then []
    else
      var rest := MatchPositions(t, keys, query, from + 1);
      if Includes(t.entries[keys[from]].command, query) then [from] + rest else rest
  }

  /**
   * `Object.values(commands).filter(({command}) => command.includes(query))`, walking
   * `keys` from position `from`.
   */
  function Matching(t: Table, keys: seq<string>, query: string, from: nat): (r: seq<Subcommand>)
    requires forall k :: k in keys ==> k in t.entries
    requires from <= |keys|
    decreases |keys| - from
    ensures |r| <= |keys| - from
  {
    if from == |keys| then []
    else
      var rest := Matching(t, keys, query, from + 1);
      var sub := t.entries[keys[from]];
      if Includes(sub.command, query) then [sub] + rest else rest
  }

  /** The filter keeps the entries at the matching positions, in key order, each once. */
  lemma {:induction false} MatchingAtPositions(t: Table, keys: seq<string>, query: string, from: nat)
    requires forall k :: k in keys ==> k in t.entries
    requires from <= |keys|
    decreases |keys| - from
    ensures var r := Matching(t, keys, query, from); var idx := MatchPositions(t, keys, query, from);
      |r| == |idx| && forall j :: 0 <= j < |r| ==> r[j] == t.entries[keys[idx[j]]]
  {
    if from < |keys| {
      MatchingAtPositions(t, keys, query, from + 1);
      var rest := Matching(t, keys, query, from + 1);
      var restIdx := MatchPositions(t, keys, query, from + 1);
      if Includes(t.entries[keys[from]].command, query) {
        assert Matching(t, keys, query, from) == [t.entries[keys[from]]] + rest;
        assert MatchPositions(t, keys, query, from) == [from] + restIdx;
      } else {
        assert Matching(t, keys, query, from) == rest;
        assert MatchPositions(t, keys, query, from) == restIdx;
      }
    }
  }

  /** The kept subcommands are exactly those whose `command` contains the query. */
  lemma MatchingKeepsExactly(t: Table, keys: seq<string>, query: string)
    requires forall k :: k in keys ==> k in t.entries
    ensures forall s :: s in Matching(t, keys, query, 0) ==>
      Includes(s.command, query) && exists i :: 0 <= i < |keys| && t.entries[keys[i]] == s
    ensures forall i :: 0 <= i < |keys| && Includes(t.entries[keys[i]].command, query) ==>
      t.entries[keys[i]] in Matching(t, keys, query, 0)
  {
    MatchingAtPositions(t, keys, query, 0);
    var r := Matching(t, keys, query, 0);
    var idx := MatchPositions(t, keys, query, 0);
    forall i | 0 <= i < |keys| && Includes(t.entries[keys[i]].command, query)
      ensures t.entries[keys[i]] in r
    {
      var j :| 0 <= j < |idx| && idx[j] == i;
      assert r[j] == t.entries[keys[i]];
    }
    forall s | s in r
      ensures Includes(s.command, query) && exists i :: 0 <= i < |keys| && t.entries[keys[i]] == s
    {
      var j :| 0 <= j < |r| && r[j] == s;
      assert idx[j] in idx;
      assert t.entries[keys[idx[j]]] == s;
    }
  }

  /** The outcome of autocomplete. */
  datatype Completion =
    | Suggestions(commands: seq<Subcommand>, header: string)
      /** `return false`. */
    | NoCompletion
      /** `subcommand.autocomplete(args.slice(1), this)`. */
    | DelegateCompletion(sub: Subcommand, args: seq<string>)

  /** The autocomplete of the `snippet` command. */
  function Autocomplete(t: Table, args: seq<string>): (r: Completion)
    requires ValidTable(t)
    ensures |args| == 1 ==>
      r.Suggestions? && r.header == "Snippet Subcommands"
      && var idx := MatchPositions(t, t.keys, Lower(args[0]), 0);
      |r.commands| == |idx|
      && forall j :: 0 <= j < |idx| ==> r.commands[j] == t.entries[t.keys[idx[j]]]
    ensures |args| != 1 ==>
      (r.DelegateCompletion? <==> FirstKey(args) in t.entries && t.entries[FirstKey(args)].hasAutocomplete)
    ensures |args| != 1 && !r.DelegateCompletion? ==> r.NoCompletion?
    ensures r.DelegateCompletion? ==> r.sub == t.entries[FirstKey(args)] && r.args == Rest(args)
  {
    if |args| == 1 then
      MatchingAtPositions(t, t.keys, Lower(args[0]), 0);
      Suggestions(Matching(t, t.keys, Lower(args[0]), 0), "Snippet Subcommands")
    else
      match Lookup(t, FirstKey(args))
      case Own(sub) => if sub.hasAutocomplete then DelegateCompletion(sub, Rest(args)) else NoCompletion
      case _ => NoCompletion
  }

  /** `keys.join(sep)`: the keys in order with `sep` between neighbours. */
  function Join(keys: seq<string>, sep: string): (r: string)
    ensures keys == [] ==> r == ""
    ensures |keys| == 1 ==> r == keys[0]
    ensures |keys| > 1 ==> |keys[0] + sep| <= |r| && r[..|keys[0] + sep|] == keys[0] + sep
  {
    if |keys| == 0 then ""
    else if |keys| == 1 then keys[0]
    else keys[0] + sep + Join(keys[1..], sep)
  }

  /**
   * Appending a key to a non-empty list appends the separator and that key to the joined
   * string, so the keys appear in order with one separator between neighbours.
   */
  lemma {:induction false} JoinSnoc(keys: seq<string>, k: string, sep: string)
    requires |keys| > 0
    ensures Join(keys + [k], sep) == Join(keys, sep) + sep + k
  {
    var ks := keys + [k];
    if |keys| == 1 {
      assert ks[1..] == [k];
    } else {
      assert ks[1..] == keys[1..] + [k];
      JoinSnoc(keys[1..], k, sep);
    }
  }

  /** The usage line: `{c} <${Object.keys(commands).join('|')}> <id>`. */
  function Usage(t: Table): (r: string)
    ensures |r| >= 11 && r[..5] == "{c} <" && r[|r| - 6..] == "> <id>"
  {
    "{c} <" + Join(t.keys, "|") + "> <id>"
  }

  /** A string occurs in any string built around it. */
  lemma IncludesMiddle(before: string, needle: string, after: string)
    ensures Includes(before + needle + after, needle)
  {
    var s := before + needle + after;
    assert s[|before|..|before| + |needle|] == needle;
    assert OccursAt(s, needle, |before|);
  }

  /** Every key of the joined list occurs in the joined string. */
  lemma {:induction false} JoinIncludesEach(keys: seq<string>, sep: string, i: nat)
    requires i < |keys|
    ensures exists before, after :: Join(keys, sep) == before + keys[i] + after
  {
    if |keys| == 1 {
      assert Join(keys, sep) == "" + keys[0] + "";
    } else if i == 0 {
      assert Join(keys, sep) == "" + keys[0] + (sep + Join(keys[1..], sep));
    } else {
      JoinIncludesEach(keys[1..], sep, i - 1);
      var before, after :| Join(keys[1..], sep) == before + keys[1..][i - 1] + after;
      assert Join(keys, sep) == (keys[0] + sep + before) + keys[i] + after;
    }
  }

  /** The usage line names every subcommand key. */
  lemma UsageNamesEveryKey(t: Table)
    ensures forall i :: 0 <= i < |t.keys| ==> Includes(Usage(t), t.keys[i])
  {
    forall i | 0 <= i < |t.keys|
      ensures Includes(Usage(t), t.keys[i])
    {
      JoinIncludesEach(t.keys, "|", i);
      var before, after :| Join(t.keys, "|") == before + t.keys[i] + after;
      assert Usage(t) == ("{c} <" + before) + t.keys[i] + (after + "> <id>");
      IncludesMiddle("{c} <" + before, t.keys[i], after + "> <id>");
    }
  }
}
