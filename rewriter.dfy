/**
 * The class Rewriter of Rewriter.php. It keeps three settings fixed at construction, the URL pairs
 * merged so far, and the directive text written so far. Each generation merges its input into the
 * pairs and then appends the block for ALL pairs merged so far to the text, which only ever grows.
 */
module Rewrites {
  import opened Wrappers
  import opened PhpStrings
  import opened UrlMap
  import opened Directives
  import opened UrlInput

  /** The first argument of generateRewritesFromString: delimited text, or an array, which is handed
      on to the array path. */
  datatype UrlList = Delimited(text: string) | Entries(entries: seq<(string, Destination)>)

  class Rewriter {
    const includeIfModuleCheck: bool
    const includeTurnOnEngine: bool
    const http301: bool
    /** `$this->urls`: source to destination, in the order the sources were first merged. */
    var urls: seq<Pair>
    /** `$this->rewrites`: everything written so far. */
    var rewrites: string

    /** The pairs form a PHP array: no source appears twice. */
    ghost predicate Valid()
      reads this
    {
      UniqueKeys(urls)
    }

    constructor (includeIfModuleCheck: bool := true, includeTurnOnEngine: bool := true, http301: bool := true)
      ensures Valid()
      ensures this.includeIfModuleCheck == includeIfModuleCheck
      ensures this.includeTurnOnEngine == includeTurnOnEngine
      ensures this.http301 == http301
      ensures urls == [] && rewrites == ""
    {
      this.includeIfModuleCheck := includeIfModuleCheck;
      this.includeTurnOnEngine := includeTurnOnEngine;
      this.http301 := http301;
      urls := [];
      rewrites := "";
    }

    /** Merges `entries` in order and, when none of their destinations is an array, appends the block
        for all pairs merged so far. On the first array destination it stops: the pairs before it
        stay merged and nothing is written. */
    method GenerateRewritesFromArray(entries: seq<(string, Destination)> := []) returns (r: Result<string>)
      requires Valid() && UniqueKeys(entries)
      modifies this
      ensures Valid()
      ensures var merged := MergeEntries(old(urls), entries);
        && urls == merged.urls
        && (merged.failure.Some? ==> r == Err(merged.failure.value) && rewrites == old(rewrites))
        && (merged.failure.None? ==>
              && rewrites == old(rewrites) + Emit(BlockLines(includeIfModuleCheck, includeTurnOnEngine, http301, urls))
              && r == Ok(rewrites))
    {
      var i := 0;
      while i < |entries|
        invariant 0 <= i <= |entries|
        invariant UniqueKeys(urls)
        invariant rewrites == old(rewrites)
        invariant MergeEntries(urls, entries[i..]) == MergeEntries(old(urls), entries)
      {
        MergeEntriesStep(urls, entries[i..]);
        var (source, destination) := entries[i];
        if destination.NestedArray? {
          return Err(ArrayDestination(source));
        }
        assert entries[i..][1..] == entries[i + 1..];
        urls := Put(urls, source, destination.value);
        i := i + 1;
      }
      var text := BuildRewrites();
      return Ok(text);
    }

    /** The string path: an array goes to the array path; text is trimmed, split at `lineBreak`, and
        each non-blank line is cut at its first `separator` into a source, which loses one leading
        `/`, and a destination. The first line whose separator is missing or comes first stops the
        merge, keeping the lines before it, and nothing is written. An empty `lineBreak` is refused
        before anything is merged. */
    method GenerateRewritesFromString(list: UrlList, separator: string := " ", lineBreak: string := "\n")
      returns (r: Result<string>)
      requires Valid() && (list.Entries? ==> UniqueKeys(list.entries))
      modifies this
      ensures Valid()
      ensures list.Delimited? && lineBreak == [] ==>
        r == Err(EmptyLineBreak) && urls == old(urls) && rewrites == old(rewrites)
      ensures list.Entries? || lineBreak != [] ==>
        var merged := match list
          case Entries(entries) => MergeEntries(old(urls), entries)
          case Delimited(text) => MergeLines(old(urls), DelimitedLines(text, lineBreak), separator);
        && urls == merged.urls
        && (merged.failure.Some? ==> r == Err(merged.failure.value) && rewrites == old(rewrites))
        && (merged.failure.None? ==>
              && rewrites == old(rewrites) + Emit(BlockLines(includeIfModuleCheck, includeTurnOnEngine, http301, urls))
              && r == Ok(rewrites))
    {
      if list.Entries? {
        r := GenerateRewritesFromArray(list.entries);
        return;
      }
      var trimmed := Trim(list.text);
      if lineBreak == [] {
        return Err(EmptyLineBreak);
      }
      var lines := Explode(lineBreak, trimmed);
      assert lines == DelimitedLines(list.text, lineBreak);
      var failure := MergeDelimited(lines, separator);
      if failure.Some? {
        return Err(failure.value);
      }
      var text := BuildRewrites();
      return Ok(text);
    }

    /** The loop over the lines: merges them in order and stops at the first refused one. */
    method MergeDelimited(lines: seq<string>, separator: string) returns (failure: Option<Error>)
      requires Valid()
      modifies this
      ensures Valid()
      ensures rewrites == old(rewrites)
      ensures MergeLines(old(urls), lines, separator) == Merged(urls, failure)
    {
      var i := 0;
      while i < |lines|
        invariant 0 <= i <= |lines|
        invariant UniqueKeys(urls)
        invariant rewrites == old(rewrites)
        invariant MergeLines(urls, lines[i..], separator) == MergeLines(old(urls), lines, separator)
      {
        MergeLinesStep(urls, lines[i..], separator);
        assert lines[i..][1..] == lines[i + 1..];
        failure := MergeLine(lines[i], separator);
        if failure.Some? {
          return;
        }
        i := i + 1;
      }
      return None;
    }

    /** The body of the loop over the lines: a blank line is skipped; a line whose separator is
        missing or comes first is refused; otherwise the line is cut at its first separator and the
        pair is merged, its source without one leading `/`. */
    method MergeLine(line: string, separator: string) returns (failure: Option<Error>)
      requires Valid()
      modifies this
      ensures Valid()
      ensures rewrites == old(rewrites)
      ensures match ParseLine(line, separator)
        case Blank => urls == old(urls) && failure == None
        case Entry(source, destination) => urls == Put(old(urls), source, destination) && failure == None
        case Invalid(e) => urls == old(urls) && failure == Some(e)
    {
      if line == "" {
        return None;
      }
      var position := StrPos(line, separator);
      if position.None? || position.value == 0 {
        return Some(MissingSeparator(line));
      }
      StrPosEmptyNeedle(line);
      var parts := ExplodeLimit(separator, line, 2);
      if |parts| != 2 {
        return Some(BadPartCount(line));
      }
      var source, destination := parts[0], parts[1];
      if |source| >= 1 && source[0] == '/' {
        source := source[1..];
      }
      urls := Put(urls, source, destination);
      return None;
    }

    /** Appends the block for all pairs merged so far and returns the whole text. */
    method BuildRewrites() returns (r: string)
      modifies this
      ensures urls == old(urls)
      ensures rewrites == old(rewrites) + Emit(BlockLines(includeIfModuleCheck, includeTurnOnEngine, http301, urls))
      ensures r == rewrites
    {
      ghost var start: seq<string> := if includeIfModuleCheck then [IfModuleStart] else [];
      ghost var engine: seq<string> := if includeTurnOnEngine then [TurnOnEngine] else [];
      if includeIfModuleCheck {
        AppendIfModuleCheckStart();
      } else {
        EmitNothing(old(rewrites));
      }
      ghost var afterStart := rewrites;
      if includeTurnOnEngine {
        AppendTurnOnEngine();
      } else {
        EmitNothing(afterStart);
      }
      EmitThen(old(rewrites), start, engine);
      ghost var afterHeader := rewrites;
      if urls != [] {
        BuildEntries();
      } else {
        EmitNothing(afterHeader);
      }
      ghost var afterEntries := rewrites;
      if includeIfModuleCheck {
        AppendIfModuleCheckEnd();
      } else {
        EmitNothing(afterEntries);
      }
      EmitBlock(old(rewrites), includeIfModuleCheck, includeTurnOnEngine, http301, urls);
      r := rewrites;
    }

    /** The loop over the pairs, in map order. */
    method BuildEntries()
      modifies this
      ensures urls == old(urls)
      ensures rewrites == old(rewrites) + Emit(EntriesLines(urls, http301))
    {
      var pairs := urls;
      var i := 0;
      while i < |pairs|
        invariant 0 <= i <= |pairs|
        invariant urls == pairs
        invariant rewrites == old(rewrites) + Emit(EntriesLines(pairs[..i], http301))
      {
        BuildEntry(pairs[i].0, pairs[i].1);
        EmitOneMoreEntry(old(rewrites), pairs[..i], pairs[i], http301);
        TakeOneMore(pairs, i);
        i := i + 1;
      }
      assert pairs[..i] == pairs;
    }

    /** The body of the loop over the pairs: a condition on the query string when the source has a
        non-empty one, then the rule for the source without its query string. */
    method BuildEntry(source: string, destination: string)
      modifies this
      ensures urls == old(urls)
      ensures rewrites == old(rewrites) + Emit(EntryLines(source, destination, http301))
    {
      var path := source;
      ghost var condition: seq<string> := [];
      match StrPos(source, "?") {
        case None =>
          EntryLinesWithoutQuery(source, destination, http301);
          EmitNothing(old(rewrites));
        case Some(position) =>
          EntryLinesWithQuery(source, destination, http301, position);
          var queryString := source[position + 1..];
          if queryString != "" {
            BuildRewriteCondition("QUERY_STRING", queryString);
            condition := [ConditionLine("QUERY_STRING", queryString)];
          } else {
            EmitNothing(old(rewrites));
          }
          path := source[..position];
      }
      assert rewrites == old(rewrites) + Emit(condition);
      assert EntryLines(source, destination, http301) == condition + [RuleLine(path, destination, http301)];
      BuildRewriteRule(path, destination);
      EmitThen(old(rewrites), condition, [RuleLine(path, destination, http301)]);
    }

    /** Appends a line break and then `line`. */
    method AppendLineToRewrites(line: string)
      modifies this
      ensures urls == old(urls)
      ensures rewrites == old(rewrites) + Emit([line])
    {
      rewrites := rewrites + "\n" + line;
    }

    method AppendIfModuleCheckStart()
      modifies this
      ensures urls == old(urls)
      ensures rewrites == old(rewrites) + Emit([IfModuleStart])
    {
      AppendLineToRewrites(IfModuleStart);
    }

    method AppendIfModuleCheckEnd()
      modifies this
      ensures urls == old(urls)
      ensures rewrites == old(rewrites) + Emit([IfModuleEnd])
    {
      AppendLineToRewrites(IfModuleEnd);
    }

    method AppendTurnOnEngine()
      modifies this
      ensures urls == old(urls)
      ensures rewrites == old(rewrites) + Emit([TurnOnEngine])
    {
      AppendLineToRewrites(TurnOnEngine);
    }

    /** Appends a condition that `%{kind}` is exactly `regex`, quoted. */
    method BuildRewriteCondition(kind: string, regex: string)
      modifies this
      ensures urls == old(urls)
      ensures rewrites == old(rewrites) + Emit([ConditionLine(kind, regex)])
    {
      AppendLineToRewrites(ConditionLine(kind, regex));
    }

    /** Appends a rule from exactly `source`, quoted, to `destination` with the fixed flags. */
    method BuildRewriteRule(source: string, destination: string)
      modifies this
      ensures urls == old(urls)
      ensures rewrites == old(rewrites) + Emit([RuleLine(source, destination, http301)])
    {
      AppendLineToRewrites(RuleLine(source, destination, http301));
    }
  }
}
