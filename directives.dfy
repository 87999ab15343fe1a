/**
 * The text Rewriter.php writes: one `mod_rewrite` directive per line, every line preceded by a
 * line break, in the order `<IfModule mod_rewrite.c>`, `RewriteEngine on`, for each URL pair an
 * optional `RewriteCond` and its `RewriteRule`, and `</IfModule>`.
 */
module Directives {
  import opened Wrappers
  import opened PhpStrings
  import opened UrlMap

  const IfModuleStart: string := "<IfModule mod_rewrite.c>"
  const IfModuleEnd: string := "</IfModule>"
  const TurnOnEngine: string := "RewriteEngine on"

  // ---------------------------------------------------------------- single lines

  /** Anchors a pattern at both ends so that it only matches the whole subject. */
  function WrapRegex(regex: string): (r: string)
    ensures |r| == |regex| + 2 && r[0] == '^' && r[|r| - 1] == '$' && r[1..|r| - 1] == regex
  {
    "^" + regex + "$"
  }

  /** The flags of every rule: the redirect flag (`R=301` for a permanent redirect, plain `R`
      otherwise), `L` and `NC`, as a bracketed, comma-separated list. */
  function BuildRewriteFlags(http301: bool): (flags: string)
    ensures |flags| >= 2 && flags[0] == '[' && flags[|flags| - 1] == ']'
  {
    var response := if http301 then "R=301" else "R";
    "[" + response + ",L,NC]"
  }

  /** Between its brackets, the flag text is the comma-separated list of the redirect flag, `L` and `NC`. */
  lemma RewriteFlagsList(http301: bool)
    ensures var flags := BuildRewriteFlags(http301);
      Explode(",", flags[1..|flags| - 1]) == [if http301 then "R=301" else "R", "L", "NC"]
  {
    var response := if http301 then "R=301" else "R";
    var names := [response, "L", "NC"];
    var flags := BuildRewriteFlags(http301);
    assert names[1..] == ["L", "NC"] && names[1..][1..] == ["NC"];
    calc {
      Implode(",", names);
      response + "," + Implode(",", ["L", "NC"]);
      response + "," + ("L" + "," + Implode(",", ["NC"]));
      response + ",L,NC";
    }
    assert flags[1..|flags| - 1] == response + ",L,NC";
    ExplodeImplodeChar(',', names);
  }

  /** A `RewriteRule` line. */
  predicate IsRuleLine(line: string) {
    "RewriteRule " <= line
  }

  /** A `RewriteCond` line. */
  predicate IsConditionLine(line: string) {
    "RewriteCond " <= line
  }

  /** `s` ends with `suffix`. */
  predicate EndsWith(s: string, suffix: string) {
    |suffix| <= |s| && s[|s| - |suffix|..] == suffix
  }

  /** Whatever comes first, a text ends with what was appended last. */
  lemma EndsWithAppended(s: string, suffix: string)
    ensures EndsWith(s + suffix, suffix)
  {
    assert (s + suffix)[|s|..] == suffix;
  }

  /** A text that differs from `prefix` at index `i` does not start with it. */
  lemma NotPrefix(prefix: string, s: string, i: nat)
    requires i < |prefix| && i < |s| && prefix[i] != s[i]
    ensures !(prefix <= s)
  {
  }

  lemma DirectivePrefixes(rest: string)
    ensures IsConditionLine("RewriteCond " + rest) && !IsRuleLine("RewriteCond " + rest)
    ensures IsRuleLine("RewriteRule " + rest) && !IsConditionLine("RewriteRule " + rest)
  {
    var c, r := "RewriteCond " + rest, "RewriteRule " + rest;
    assert c[..12] == "RewriteCond " && r[..12] == "RewriteRule ";
    NotPrefix("RewriteRule ", c, 8);
    NotPrefix("RewriteCond ", r, 8);
  }

  /** The condition that the server variable `kind` matches `regex`, quoted and anchored. */
  function ConditionLine(kind: string, regex: string): (line: string)
    ensures IsConditionLine(line) && !IsRuleLine(line)
  {
    var line := "RewriteCond " + ("%{" + kind + "} " + WrapRegex(PregQuote(regex)));
    DirectivePrefixes("%{" + kind + "} " + WrapRegex(PregQuote(regex)));
    line
  }

  /** The rule that redirects a request for exactly `source` to `destination`; the `?` after the
      destination drops the request's query string. */
  function RuleLine(source: string, destination: string, http301: bool): (line: string)
    ensures IsRuleLine(line) && !IsConditionLine(line)
    ensures EndsWith(line, "? " + BuildRewriteFlags(http301))
  {
    var suffix := "? " + BuildRewriteFlags(http301);
    var head := WrapRegex(PregQuote(source)) + " " + destination;
    var rest := head + suffix;
    DirectivePrefixes(rest);
    var line := "RewriteRule " + rest;
    Associative("RewriteRule ", head, suffix);
    EndsWithAppended("RewriteRule " + head, suffix);
    line
  }

  /** A condition line is the variable, then the anchored quoted pattern, and the quoted pattern
      reads back as exactly the query string it was made from. */
  lemma ConditionLineShape(kind: string, regex: string)
    ensures var quoted := PregQuote(regex);
      && ConditionLine(kind, regex) == "RewriteCond " + "%{" + kind + "} " + "^" + quoted + "$"
      && Unquote(quoted) == Some(regex)
  {
    var quoted := PregQuote(regex);
    var w := WrapRegex(quoted);
    var variable := "%{" + kind + "} ";
    assert ConditionLine(kind, regex) == "RewriteCond " + "%{" + kind + "} " + w by {
      calc {
        ConditionLine(kind, regex);
        "RewriteCond " + (variable + w);
        { Associative("RewriteCond ", variable, w); }
        "RewriteCond " + variable + w;
        { Associative("RewriteCond ", "%{" + kind, "} "); }
        "RewriteCond " + ("%{" + kind) + "} " + w;
        { Associative("RewriteCond ", "%{", kind); }
        "RewriteCond " + "%{" + kind + "} " + w;
      }
    }
    var prefix := "RewriteCond " + "%{" + kind + "} ";
    assert prefix + w == prefix + "^" + quoted + "$" by {
      Associative(prefix, "^" + quoted, "$");
      Associative(prefix, "^", quoted);
    }
    assert Unquote(quoted) == Some(regex) by { UnquotePregQuote(regex); }
  }

  /** A rule line is the anchored quoted source, the destination with `?` after it, and the flags;
      the quoted source reads back as exactly the source it was made from. */
  lemma RuleLineShape(source: string, destination: string, http301: bool)
    ensures var quoted := PregQuote(source);
      && RuleLine(source, destination, http301)
         == "RewriteRule " + "^" + quoted + "$" + " " + destination + "? " + BuildRewriteFlags(http301)
      && Unquote(quoted) == Some(source)
  {
    var quoted, flags := PregQuote(source), BuildRewriteFlags(http301);
    var w := WrapRegex(quoted);
    assert RuleLine(source, destination, http301) == "RewriteRule " + w + " " + destination + "? " + flags by {
      calc {
        RuleLine(source, destination, http301);
        "RewriteRule " + (w + " " + destination + ("? " + flags));
        { Associative(w + " " + destination, "? ", flags); }
        "RewriteRule " + (w + " " + destination + "? " + flags);
        { Associative("RewriteRule ", w + " " + destination + "? ", flags); }
        "RewriteRule " + (w + " " + destination + "? ") + flags;
        { Associative("RewriteRule ", w + " " + destination, "? "); }
        "RewriteRule " + (w + " " + destination) + "? " + flags;
        { Associative("RewriteRule ", w + " ", destination); }
        "RewriteRule " + (w + " ") + destination + "? " + flags;
        { Associative("RewriteRule ", w, " "); }
        "RewriteRule " + w + " " + destination + "? " + flags;
      }
    }
    assert "RewriteRule " + w == "RewriteRule " + "^" + quoted + "$" by {
      Associative("RewriteRule ", "^" + quoted, "$");
      Associative("RewriteRule ", "^", quoted);
    }
    assert Unquote(quoted) == Some(source) by { UnquotePregQuote(source); }
  }

  // ---------------------------------------------------------------- one URL pair

  /** A source URL cut at its first `?`: the path before it and, when there is a `?`, the text after it. */
  datatype QuerySplit = QuerySplit(path: string, query: Option<string>)

  /** Splits `source` at its first `?`. The path loses everything from the `?` on even when
      nothing follows it. */
  function SplitQuery(source: string): (sq: QuerySplit)
    ensures sq.query.None? ==> sq.path == source && '?' !in source
    ensures sq.query.Some? ==> source == sq.path + "?" + sq.query.value && '?' !in sq.path
  {
    StrPosFindsChar(source, '?');
    match StrPos(source, "?")
    case None => QuerySplit(source, None)
    case Some(p) =>
      assert source == source[..p] + "?" + source[p + 1..];
      QuerySplit(source[..p], Some(source[p + 1..]))
  }

  /** The source carries a non-empty query string, so its rule gets a condition. */
  predicate HasQueryString(source: string) {
    var sq := SplitQuery(source);
    sq.query.Some? && sq.query.value != ""
  }

  /** The lines written for one URL pair. */
  function EntryLines(source: string, destination: string, http301: bool): seq<string> {
    var sq := SplitQuery(source);
    (if HasQueryString(source) then [ConditionLine("QUERY_STRING", sq.query.value)] else [])
    + [RuleLine(sq.path, destination, http301)]
  }

  /** The lines for a URL pair whose source has no `?`: just its rule. */
  lemma EntryLinesWithoutQuery(source: string, destination: string, http301: bool)
    requires StrPos(source, "?").None?
    ensures EntryLines(source, destination, http301) == [] + [RuleLine(source, destination, http301)]
  {
  }

  /** The lines for a URL pair whose source has its first `?` at `p`: a condition when text follows
      the `?`, then the rule for the text before it. */
  lemma EntryLinesWithQuery(source: string, destination: string, http301: bool, p: nat)
    requires StrPos(source, "?") == Some(p)
    ensures p < |source|
    ensures EntryLines(source, destination, http301) ==
      (if source[p + 1..] != "" then [ConditionLine("QUERY_STRING", source[p + 1..])] else [])
      + [RuleLine(source[..p], destination, http301)]
  {
  }

  /** The lines written for all URL pairs, in map order. */
  function EntriesLines(urls: seq<Pair>, http301: bool): seq<string> {
    if urls == [] then [] else EntryLines(urls[0].0, urls[0].1, http301) + EntriesLines(urls[1..], http301)
  }

  /** Each URL pair writes its rule, and one more line when its source has a query string. */
  lemma {:induction false} EntriesLength(urls: seq<Pair>, http301: bool)
    ensures |EntriesLines(urls, http301)| == |urls| + QueryCount(urls)
  {
    if urls != [] {
      EntriesLength(urls[1..], http301);
    }
  }

  /** A block has its frame lines, one rule per URL pair and one condition per query string. */
  lemma BlockLength(ifModuleCheck: bool, turnOnEngine: bool, http301: bool, urls: seq<Pair>)
    ensures |BlockLines(ifModuleCheck, turnOnEngine, http301, urls)|
         == (if ifModuleCheck then 2 else 0) + (if turnOnEngine then 1 else 0) + |urls| + QueryCount(urls)
  {
    EntriesLength(urls, http301);
  }

  /** The lines for one more URL pair come after the lines for the pairs before it. */
  lemma {:induction false} EntriesLinesAppend(urls: seq<Pair>, pair: Pair, http301: bool)
    ensures EntriesLines(urls + [pair], http301) == EntriesLines(urls, http301) + EntryLines(pair.0, pair.1, http301)
  {
    var last := EntryLines(pair.0, pair.1, http301);
    if urls == [] {
      assert urls + [pair] == [pair];
      assert EntriesLines([pair], http301) == last + EntriesLines([], http301);
    } else {
      assert (urls + [pair])[1..] == urls[1..] + [pair];
      var first := EntryLines(urls[0].0, urls[0].1, http301);
      calc {
        EntriesLines(urls + [pair], http301);
        first + EntriesLines(urls[1..] + [pair], http301);
        { EntriesLinesAppend(urls[1..], pair, http301); }
        first + (EntriesLines(urls[1..], http301) + last);
        { Associative(first, EntriesLines(urls[1..], http301), last); }
        (first + EntriesLines(urls[1..], http301)) + last;
      }
    }
  }

  // ---------------------------------------------------------------- the whole block

  function Header(ifModuleCheck: bool, turnOnEngine: bool): seq<string> {
    (if ifModuleCheck then [IfModuleStart] else []) + (if turnOnEngine then [TurnOnEngine] else [])
  }

  function Footer(ifModuleCheck: bool): seq<string> {
    if ifModuleCheck then [IfModuleEnd] else []
  }

  /** The lines one generation writes for the accumulated URL pairs. */
  function BlockLines(ifModuleCheck: bool, turnOnEngine: bool, http301: bool, urls: seq<Pair>): seq<string> {
    Header(ifModuleCheck, turnOnEngine) + EntriesLines(urls, http301) + Footer(ifModuleCheck)
  }

  /** The text of `lines`, each one preceded by a line break. */
  function Emit(lines: seq<string>): string {
    if lines == [] then "" else "\n" + lines[0] + Emit(lines[1..])
  }

  /** Concatenation is associative. */
  lemma Associative<T>(a: seq<T>, b: seq<T>, c: seq<T>)
    ensures a + (b + c) == a + b + c
  {
  }

  /** The first `i + 1` elements are the first `i` and then element `i`. */
  lemma TakeOneMore<T>(s: seq<T>, i: nat)
    requires i < |s|
    ensures s[..i + 1] == s[..i] + [s[i]]
  {
  }

  /** Writing no lines leaves the text as it is. */
  lemma EmitNothing(text: string)
    ensures text + Emit([]) == text
  {
  }

  /** Writing the text of `a` and then the text of `b` writes the text of `a + b`. */
  lemma EmitThen(text: string, a: seq<string>, b: seq<string>)
    ensures text + Emit(a) + Emit(b) == text + Emit(a + b)
  {
    calc {
      text + Emit(a + b);
      { EmitConcat(a, b); }
      text + (Emit(a) + Emit(b));
      { Associative(text, Emit(a), Emit(b)); }
      text + Emit(a) + Emit(b);
    }
  }

  /** Writing the lines for one more URL pair after the text for the pairs before it. */
  lemma EmitOneMoreEntry(text: string, done: seq<Pair>, pair: Pair, http301: bool)
    ensures text + Emit(EntriesLines(done, http301)) + Emit(EntryLines(pair.0, pair.1, http301))
         == text + Emit(EntriesLines(done + [pair], http301))
  {
    var before, last := EntriesLines(done, http301), EntryLines(pair.0, pair.1, http301);
    calc {
      text + Emit(EntriesLines(done + [pair], http301));
      { EntriesLinesAppend(done, pair, http301); }
      text + Emit(before + last);
      { EmitConcat(before, last); }
      text + (Emit(before) + Emit(last));
      { Associative(text, Emit(before), Emit(last)); }
      text + Emit(before) + Emit(last);
    }
  }

  /** Writing a header, the lines for the pairs and a footer writes the block. */
  lemma EmitBlock(text: string, ifModuleCheck: bool, turnOnEngine: bool, http301: bool, urls: seq<Pair>)
    ensures text + Emit(Header(ifModuleCheck, turnOnEngine)) + Emit(EntriesLines(urls, http301)) + Emit(Footer(ifModuleCheck))
         == text + Emit(BlockLines(ifModuleCheck, turnOnEngine, http301, urls))
  {
    var h, e, f := Header(ifModuleCheck, turnOnEngine), EntriesLines(urls, http301), Footer(ifModuleCheck);
    calc {
      text + Emit(BlockLines(ifModuleCheck, turnOnEngine, http301, urls));
      text + Emit(h + e + f);
      { EmitConcat(h + e, f); }
      text + (Emit(h + e) + Emit(f));
      { EmitConcat(h, e); }
      text + (Emit(h) + Emit(e) + Emit(f));
      { Associative(text, Emit(h) + Emit(e), Emit(f)); }
      text + (Emit(h) + Emit(e)) + Emit(f);
      { Associative(text, Emit(h), Emit(e)); }
      text + Emit(h) + Emit(e) + Emit(f);
    }
  }

  // ---------------------------------------------------------------- properties of the text

  lemma {:induction false} EmitConcat(a: seq<string>, b: seq<string>)
    ensures Emit(a + b) == Emit(a) + Emit(b)
  {
    if a == [] {
      assert a + b == b;
    } else {
      assert (a + b)[1..] == a[1..] + b;
      calc {
        Emit(a + b);
        "\n" + a[0] + Emit(a[1..] + b);
        { EmitConcat(a[1..], b); }
        "\n" + a[0] + (Emit(a[1..]) + Emit(b));
        ("\n" + a[0] + Emit(a[1..])) + Emit(b);
      }
    }
  }

  /** Splitting `head` followed by the text of `rest` at its line breaks gives `head` and then `rest`. */
  lemma {:induction false} ExplodeEmit(head: string, rest: seq<string>)
    requires '\n' !in head && NoLineBreaks(rest)
    ensures Explode("\n", head + Emit(rest)) == [head] + rest
    decreases |rest|
  {
    if rest == [] {
      StrPosChar(head, '\n', "");
      assert head + Emit(rest) == head;
    } else {
      var tail := rest[0] + Emit(rest[1..]);
      assert head + Emit(rest) == head + ['\n'] + tail;
      StrPosChar(head, '\n', tail);
      assert (head + ['\n'] + tail)[..|head|] == head;
      assert (head + ['\n'] + tail)[|head| + 1..] == tail;
      ExplodeEmit(rest[0], rest[1..]);
      assert rest == [rest[0]] + rest[1..];
    }
  }

  /** When no line holds a line break, splitting the emitted text at its line breaks recovers
      exactly the lines, after the empty text before the first break. */
  lemma EmitSplitsIntoLines(lines: seq<string>)
    requires NoLineBreaks(lines)
    ensures Explode("\n", Emit(lines)) == [""] + lines
  {
    ExplodeEmit("", lines);
    assert "" + Emit(lines) == Emit(lines);
  }

  /** The lines of `lines` that satisfy `keep`, in order. */
  function Filter(keep: string -> bool, lines: seq<string>): seq<string> {
    if lines == [] then []
    else (if keep(lines[0]) then [lines[0]] else []) + Filter(keep, lines[1..])
  }

  lemma {:induction false} FilterConcat(keep: string -> bool, a: seq<string>, b: seq<string>)
    ensures Filter(keep, a + b) == Filter(keep, a) + Filter(keep, b)
  {
    if a == [] {
      assert a + b == b;
    } else {
      assert (a + b)[1..] == a[1..] + b;
      var first := if keep(a[0]) then [a[0]] else [];
      calc {
        Filter(keep, a + b);
        first + Filter(keep, a[1..] + b);
        { FilterConcat(keep, a[1..], b); }
        first + (Filter(keep, a[1..]) + Filter(keep, b));
        (first + Filter(keep, a[1..])) + Filter(keep, b);
      }
    }
  }

  /** The header and footer lines are neither rules nor conditions. */
  lemma FrameLinesAreNotDirectives(ifModuleCheck: bool, turnOnEngine: bool)
    ensures Filter(IsRuleLine, Header(ifModuleCheck, turnOnEngine)) == []
    ensures Filter(IsConditionLine, Header(ifModuleCheck, turnOnEngine)) == []
    ensures Filter(IsRuleLine, Footer(ifModuleCheck)) == []
    ensures Filter(IsConditionLine, Footer(ifModuleCheck)) == []
  {
    FrameLine(IfModuleStart);
    FrameLine(IfModuleEnd);
    FrameLine(TurnOnEngine);
  }

  lemma FrameLine(line: string)
    requires line in {IfModuleStart, IfModuleEnd, TurnOnEngine}
    ensures !IsRuleLine(line) && !IsConditionLine(line)
    ensures Filter(IsRuleLine, [line]) == [] && Filter(IsConditionLine, [line]) == []
    ensures forall rest :: Filter(IsRuleLine, [line] + rest) == Filter(IsRuleLine, rest)
  {
    if line == TurnOnEngine {
      NotPrefix("RewriteRule ", line, 7);
      NotPrefix("RewriteCond ", line, 7);
    } else {
      NotPrefix("RewriteRule ", line, 0);
      NotPrefix("RewriteCond ", line, 0);
    }
  }

  /** Rules for every URL pair: the rule for a source redirects its path before any `?`. */
  function RulesFor(urls: seq<Pair>, http301: bool): (rules: seq<string>)
    ensures |rules| == |urls|
  {
    seq(|urls|, i requires 0 <= i < |urls| => RuleLine(SplitQuery(urls[i].0).path, urls[i].1, http301))
  }

  /** The lines of one URL pair hold exactly one rule, and a condition only when the source has a query string. */
  lemma EntryKinds(source: string, destination: string, http301: bool)
    ensures Filter(IsRuleLine, EntryLines(source, destination, http301)) == [RuleLine(SplitQuery(source).path, destination, http301)]
    ensures |Filter(IsConditionLine, EntryLines(source, destination, http301))| == if HasQueryString(source) then 1 else 0
  {
    var sq := SplitQuery(source);
    var rule := RuleLine(sq.path, destination, http301);
    assert Filter(IsRuleLine, [rule]) == [rule] && Filter(IsConditionLine, [rule]) == [];
    if HasQueryString(source) {
      var cond := ConditionLine("QUERY_STRING", sq.query.value);
      var e := [cond, rule];
      assert e[1..] == [rule];
      assert Filter(IsRuleLine, e) == Filter(IsRuleLine, [rule]);
      assert Filter(IsConditionLine, e) == [cond] + Filter(IsConditionLine, [rule]);
    } else {
      assert EntryLines(source, destination, http301) == [rule];
    }
  }

  lemma {:induction false} EntriesRules(urls: seq<Pair>, http301: bool)
    ensures Filter(IsRuleLine, EntriesLines(urls, http301)) == RulesFor(urls, http301)
  {
    if urls != [] {
      var (s, d) := urls[0];
      var e, rest := EntryLines(s, d, http301), EntriesLines(urls[1..], http301);
      calc {
        Filter(IsRuleLine, EntriesLines(urls, http301));
        Filter(IsRuleLine, e + rest);
        { FilterConcat(IsRuleLine, e, rest); }
        Filter(IsRuleLine, e) + Filter(IsRuleLine, rest);
        { EntryKinds(s, d, http301); EntriesRules(urls[1..], http301); }
        [RuleLine(SplitQuery(s).path, d, http301)] + RulesFor(urls[1..], http301);
        { RulesForCons(urls, http301); }
        RulesFor(urls, http301);
      }
    }
  }

  lemma RulesForCons(urls: seq<Pair>, http301: bool)
    requires urls != []
    ensures RulesFor(urls, http301) == [RuleLine(SplitQuery(urls[0].0).path, urls[0].1, http301)] + RulesFor(urls[1..], http301)
  {
    var all, rest := RulesFor(urls, http301), RulesFor(urls[1..], http301);
    var first := [RuleLine(SplitQuery(urls[0].0).path, urls[0].1, http301)];
    forall i | 0 <= i < |all| ensures all[i] == (first + rest)[i] {
      if i > 0 {
        assert urls[1..][i - 1] == urls[i];
      }
    }
  }

  /** One rule per URL pair: the `RewriteRule` lines of a block are, in map order, exactly one per
      entry, for the source's path before any `?` and the entry's destination. */
  lemma OneRulePerEntry(ifModuleCheck: bool, turnOnEngine: bool, http301: bool, urls: seq<Pair>)
    ensures Filter(IsRuleLine, BlockLines(ifModuleCheck, turnOnEngine, http301, urls)) == RulesFor(urls, http301)
  {
    var h, e, f := Header(ifModuleCheck, turnOnEngine), EntriesLines(urls, http301), Footer(ifModuleCheck);
    FilterConcat(IsRuleLine, h + e, f);
    FilterConcat(IsRuleLine, h, e);
    FrameLinesAreNotDirectives(ifModuleCheck, turnOnEngine);
    EntriesRules(urls, http301);
  }

  /** With unique sources, as the class keeps them, each source of the map has exactly one rule:
      the one at its own position, for its path and its destination, and no other pair shares it. */
  lemma OneRulePerSource(ifModuleCheck: bool, turnOnEngine: bool, http301: bool, urls: seq<Pair>, key: string)
    requires UniqueKeys(urls) && Lookup(urls, key).Some?
    ensures var i := IndexOf(urls, key).value;
      var rules := Filter(IsRuleLine, BlockLines(ifModuleCheck, turnOnEngine, http301, urls));
      && i < |rules| && rules[i] == RuleLine(SplitQuery(key).path, Lookup(urls, key).value, http301)
      && forall j :: 0 <= j < |urls| && j != i ==> urls[j].0 != key
  {
    OneRulePerEntry(ifModuleCheck, turnOnEngine, http301, urls);
  }

  /** Every rule of a block carries the same flags. */
  lemma RulesShareFlags(ifModuleCheck: bool, turnOnEngine: bool, http301: bool, urls: seq<Pair>, rule: string)
    requires rule in Filter(IsRuleLine, BlockLines(ifModuleCheck, turnOnEngine, http301, urls))
    ensures EndsWith(rule, "? " + BuildRewriteFlags(http301))
  {
    OneRulePerEntry(ifModuleCheck, turnOnEngine, http301, urls);
  }

  /** The number of URL pairs whose source carries a non-empty query string. */
  function QueryCount(urls: seq<Pair>): nat {
    if urls == [] then 0 else (if HasQueryString(urls[0].0) then 1 else 0) + QueryCount(urls[1..])
  }

  lemma {:induction false} EntriesConditionCount(urls: seq<Pair>, http301: bool)
    ensures |Filter(IsConditionLine, EntriesLines(urls, http301))| == QueryCount(urls)
  {
    if urls != [] {
      var (s, d) := urls[0];
      var e := EntryLines(s, d, http301);
      EntriesConditionCount(urls[1..], http301);
      FilterConcat(IsConditionLine, e, EntriesLines(urls[1..], http301));
      EntryKinds(s, d, http301);
    }
  }

  /** A block has one `RewriteCond` line for each URL pair whose source has a non-empty query string,
      and no other. */
  lemma ConditionCount(ifModuleCheck: bool, turnOnEngine: bool, http301: bool, urls: seq<Pair>)
    ensures |Filter(IsConditionLine, BlockLines(ifModuleCheck, turnOnEngine, http301, urls))| == QueryCount(urls)
  {
    var h, e, f := Header(ifModuleCheck, turnOnEngine), EntriesLines(urls, http301), Footer(ifModuleCheck);
    FilterConcat(IsConditionLine, h + e, f);
    FilterConcat(IsConditionLine, h, e);
    FrameLinesAreNotDirectives(ifModuleCheck, turnOnEngine);
    EntriesConditionCount(urls, http301);
  }

  /** Every `RewriteCond` line is immediately followed by a `RewriteRule` line. */
  predicate RuleAfterEachCondition(lines: seq<string>) {
    forall k :: 0 <= k < |lines| && IsConditionLine(lines[k]) ==> k + 1 < |lines| && IsRuleLine(lines[k + 1])
  }

  /** No line is a `RewriteCond` line. */
  predicate NoConditionLines(lines: seq<string>) {
    forall i :: 0 <= i < |lines| ==> !IsConditionLine(lines[i])
  }

  /** Within the lines of one URL pair, a condition can only come first, with the rule right after
      it, and the last line is the rule. */
  lemma EntryConditionFirst(source: string, destination: string, http301: bool)
    ensures var e := EntryLines(source, destination, http301);
      RuleAfterEachCondition(e) && !IsConditionLine(e[|e| - 1])
  {
  }

  /** Joining two runs of lines keeps every condition followed by a rule when the first run does
      not end with a condition. */
  lemma RuleAfterConcat(a: seq<string>, b: seq<string>)
    requires RuleAfterEachCondition(a) && RuleAfterEachCondition(b)
    requires |a| > 0 ==> !IsConditionLine(a[|a| - 1])
    ensures RuleAfterEachCondition(a + b)
  {
    var ab := a + b;
    forall k | 0 <= k < |ab| && IsConditionLine(ab[k]) ensures k + 1 < |ab| && IsRuleLine(ab[k + 1]) {
      if k < |a| {
        assert ab[k] == a[k];
        assert ab[k + 1] == a[k + 1];
      } else {
        assert ab[k] == b[k - |a|];
        assert ab[k + 1] == b[k + 1 - |a|];
      }
    }
  }

  lemma {:induction false} EntriesConditionBeforeRule(urls: seq<Pair>, http301: bool)
    ensures RuleAfterEachCondition(EntriesLines(urls, http301))
  {
    if urls != [] {
      var (s, d) := urls[0];
      EntryConditionFirst(s, d, http301);
      EntriesConditionBeforeRule(urls[1..], http301);
      RuleAfterConcat(EntryLines(s, d, http301), EntriesLines(urls[1..], http301));
    }
  }

  /** The header and footer hold no condition and no line break. */
  lemma FrameFacts(ifModuleCheck: bool, turnOnEngine: bool)
    ensures var h := Header(ifModuleCheck, turnOnEngine); NoLineBreaks(h) && NoConditionLines(h)
    ensures var f := Footer(ifModuleCheck); NoLineBreaks(f) && NoConditionLines(f)
  {
    var start: seq<string> := if ifModuleCheck then [IfModuleStart] else [];
    var engine: seq<string> := if turnOnEngine then [TurnOnEngine] else [];
    if ifModuleCheck {
      FrameLineFree(IfModuleStart);
      FrameLineFree(IfModuleEnd);
    }
    if turnOnEngine {
      FrameLineFree(TurnOnEngine);
    }
    NoLineBreaksConcat(start, engine);
    NoConditionLinesConcat(start, engine);
  }

  lemma FrameLineFree(line: string)
    requires line in {IfModuleStart, IfModuleEnd, TurnOnEngine}
    ensures NoLineBreaks([line]) && NoConditionLines([line])
  {
    FrameLine(line);
    assert '\n' !in line;
  }

  lemma NoConditionLinesConcat(a: seq<string>, b: seq<string>)
    requires NoConditionLines(a) && NoConditionLines(b)
    ensures NoConditionLines(a + b)
  {
    forall i | 0 <= i < |a + b| ensures !IsConditionLine((a + b)[i]) {
      if i < |a| { assert (a + b)[i] == a[i]; } else { assert (a + b)[i] == b[i - |a|]; }
    }
  }

  /** Lines without conditions around lines where every condition is followed by a rule
      keep that property. */
  lemma RuleAfterFramed(h: seq<string>, e: seq<string>, f: seq<string>)
    requires NoConditionLines(h) && NoConditionLines(f) && RuleAfterEachCondition(e)
    ensures RuleAfterEachCondition(h + e + f)
  {
    var all := h + e + f;
    forall k | 0 <= k < |all| && IsConditionLine(all[k]) ensures k + 1 < |all| && IsRuleLine(all[k + 1]) {
      ConditionInMiddle(h, e, f, k);
      IndexInMiddle(h, e, f, k - |h| + 1);
    }
  }

  /** A condition in `h + e + f` with no condition in `h` or `f` lies in `e`. */
  lemma ConditionInMiddle(h: seq<string>, e: seq<string>, f: seq<string>, k: nat)
    requires NoConditionLines(h) && NoConditionLines(f)
    requires k < |h + e + f| && IsConditionLine((h + e + f)[k])
    ensures |h| <= k < |h| + |e| && (h + e + f)[k] == e[k - |h|]
  {
  }

  /** The middle part of `h + e + f` starts at index |h|. */
  lemma IndexInMiddle(h: seq<string>, e: seq<string>, f: seq<string>, j: nat)
    requires j < |e|
    ensures |h| + j < |h + e + f| && (h + e + f)[|h| + j] == e[j]
  {
  }

  /** Every `RewriteCond` line of a block is immediately followed by a `RewriteRule` line. */
  lemma ConditionImmediatelyBeforeRule(ifModuleCheck: bool, turnOnEngine: bool, http301: bool, urls: seq<Pair>)
    ensures RuleAfterEachCondition(BlockLines(ifModuleCheck, turnOnEngine, http301, urls))
  {
    FrameFacts(ifModuleCheck, turnOnEngine);
    EntriesConditionBeforeRule(urls, http301);
    RuleAfterFramed(Header(ifModuleCheck, turnOnEngine), EntriesLines(urls, http301), Footer(ifModuleCheck));
  }

  /** No line holds a line break. */
  predicate NoLineBreaks(lines: seq<string>) {
    forall i :: 0 <= i < |lines| ==> '\n' !in lines[i]
  }

  lemma NoLineBreaksConcat(a: seq<string>, b: seq<string>)
    requires NoLineBreaks(a) && NoLineBreaks(b)
    ensures NoLineBreaks(a + b)
  {
    forall i | 0 <= i < |a + b| ensures '\n' !in (a + b)[i] {
      if i < |a| { assert (a + b)[i] == a[i]; } else { assert (a + b)[i] == b[i - |a|]; }
    }
  }

  lemma FlagsLineFree(http301: bool)
    ensures '\n' !in BuildRewriteFlags(http301)
  {
    if http301 { assert BuildRewriteFlags(http301) == "[R=301,L,NC]"; }
    else { assert BuildRewriteFlags(http301) == "[R,L,NC]"; }
  }

  lemma RuleLineFree(path: string, destination: string, http301: bool)
    requires '\n' !in path && '\n' !in destination
    ensures '\n' !in RuleLine(path, destination, http301)
  {
    PregQuoteKeepsLineFree(path);
    FlagsLineFree(http301);
  }

  lemma ConditionLineFree(kind: string, regex: string)
    requires '\n' !in kind && '\n' !in regex
    ensures '\n' !in ConditionLine(kind, regex)
  {
    PregQuoteKeepsLineFree(regex);
  }

  /** Neither part of a split source holds a line break the source does not hold. */
  lemma SplitQueryLineFree(source: string)
    requires '\n' !in source
    ensures var sq := SplitQuery(source); '\n' !in sq.path && (sq.query.Some? ==> '\n' !in sq.query.value)
  {
    var sq := SplitQuery(source);
    if sq.query.Some? { assert source == sq.path + "?" + sq.query.value; }
  }

  /** No line written for one URL pair holds a line break when neither its source nor its destination does. */
  lemma EntryLineFree(source: string, destination: string, http301: bool)
    requires '\n' !in source && '\n' !in destination
    ensures NoLineBreaks(EntryLines(source, destination, http301))
  {
    var sq := SplitQuery(source);
    SplitQueryLineFree(source);
    RuleLineFree(sq.path, destination, http301);
    if HasQueryString(source) {
      ConditionLineFree("QUERY_STRING", sq.query.value);
    }
  }

  lemma {:induction false} EntriesLineFree(urls: seq<Pair>, http301: bool)
    requires forall i :: 0 <= i < |urls| ==> '\n' !in urls[i].0 && '\n' !in urls[i].1
    ensures NoLineBreaks(EntriesLines(urls, http301))
  {
    if urls != [] {
      var (s, d) := urls[0];
      EntriesLineFree(urls[1..], http301);
      EntryLineFree(s, d, http301);
      NoLineBreaksConcat(EntryLines(s, d, http301), EntriesLines(urls[1..], http301));
    }
  }

  /** The text of a block, split at its line breaks, gives back the block's lines one by one,
      provided no source and no destination holds a line break of its own. */
  lemma BlockTextSplitsIntoLines(ifModuleCheck: bool, turnOnEngine: bool, http301: bool, urls: seq<Pair>)
    requires forall i :: 0 <= i < |urls| ==> '\n' !in urls[i].0 && '\n' !in urls[i].1
    ensures var lines := BlockLines(ifModuleCheck, turnOnEngine, http301, urls);
      Explode("\n", Emit(lines)) == [""] + lines
  {
    var h, e, f := Header(ifModuleCheck, turnOnEngine), EntriesLines(urls, http301), Footer(ifModuleCheck);
    EntriesLineFree(urls, http301);
    FrameFacts(ifModuleCheck, turnOnEngine);
    NoLineBreaksConcat(h, e);
    NoLineBreaksConcat(h + e, f);
    EmitSplitsIntoLines(h + e + f);
  }
}
