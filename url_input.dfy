/**
 * How Rewriter.php turns its input into URL pairs and merges them into `$this->urls`: the array
 * path (a PHP array from source to destination) and the string path (delimited text, one pair per
 * line). Both walk their input in order and stop at the first bad item with an exception; the pairs
 * merged before it stay merged.
 */
module UrlInput {
  import opened Wrappers
  import opened PhpStrings
  import opened UrlMap

  /** A destination given on the array path: a string, or a nested PHP array, which is refused. */
  datatype Destination = Text(value: string) | NestedArray

  /** The exceptions the generators throw, each with what its message names. */
  datatype Error =
    | ArrayDestination(source: string)
    | MissingSeparator(line: string)
    | BadPartCount(line: string)
    | EmptyLineBreak

  /** What a generator returns: the whole accumulated directive text, or the exception it threw. */
  datatype Result<T> = Ok(value: T) | Err(error: Error)

  /** What one input item contributes: nothing (a blank line), a URL pair, or an exception. */
  datatype Outcome = Blank | Entry(source: string, destination: string) | Invalid(error: Error)

  /** The URL map after a merge, and the exception that stopped the merge, if one did. */
  datatype Merged = Merged(urls: seq<Pair>, failure: Option<Error>)

  // ---------------------------------------------------------------- merging

  /** Merges the items in order into `m` and stops at the first exception. */
  function MergeOutcomes(m: seq<Pair>, outcomes: seq<Outcome>): (r: Merged)
    ensures UniqueKeys(m) ==> UniqueKeys(r.urls)
    decreases |outcomes|
  {
    if outcomes == [] then Merged(m, None)
    else match outcomes[0]
      case Blank => MergeOutcomes(m, outcomes[1..])
      case Entry(s, d) => MergeOutcomes(Put(m, s, d), outcomes[1..])
      case Invalid(e) => Merged(m, Some(e))
  }

  /** No item raises an exception. */
  predicate AllValid(outcomes: seq<Outcome>) {
    forall i :: 0 <= i < |outcomes| ==> !outcomes[i].Invalid?
  }

  /** A merge of items of which none raises an exception succeeds. */
  lemma {:induction false} MergeSucceeds(m: seq<Pair>, outcomes: seq<Outcome>)
    requires AllValid(outcomes)
    ensures MergeOutcomes(m, outcomes).failure == None
    decreases |outcomes|
  {
    if outcomes != [] {
      match outcomes[0]
      case Blank => MergeSucceeds(m, outcomes[1..]);
      case Entry(s, d) => MergeSucceeds(Put(m, s, d), outcomes[1..]);
    }
  }

  /** A merge stops at the first item that raises an exception, reports that exception, and keeps
      what the items before it merged. */
  lemma {:induction false} MergeStopsAt(m: seq<Pair>, outcomes: seq<Outcome>, i: nat)
    requires i < |outcomes| && outcomes[i].Invalid? && AllValid(outcomes[..i])
    ensures MergeOutcomes(m, outcomes) == Merged(MergeOutcomes(m, outcomes[..i]).urls, Some(outcomes[i].error))
    decreases |outcomes|
  {
    if i > 0 {
      var tail := outcomes[1..];
      assert tail[..i - 1] == outcomes[..i][1..];
      assert outcomes[..i][0] == outcomes[0];
      match outcomes[0]
      case Blank => MergeStopsAt(m, tail, i - 1);
      case Entry(s, d) => MergeStopsAt(Put(m, s, d), tail, i - 1);
    }
  }

  /** A source that no item names keeps the destination it had. */
  lemma {:induction false} MergeKeepsOthers(m: seq<Pair>, outcomes: seq<Outcome>, key: string)
    requires forall i :: 0 <= i < |outcomes| && outcomes[i].Entry? ==> outcomes[i].source != key
    ensures Lookup(MergeOutcomes(m, outcomes).urls, key) == Lookup(m, key)
    decreases |outcomes|
  {
    if outcomes != [] {
      match outcomes[0]
      case Blank => MergeKeepsOthers(m, outcomes[1..], key);
      case Entry(s, d) => MergeKeepsOthers(Put(m, s, d), outcomes[1..], key);
      case Invalid(e) =>
    }
  }

  /** When no item raises an exception, a source maps to the destination of the last item naming it. */
  lemma {:induction false} MergeLastWins(m: seq<Pair>, outcomes: seq<Outcome>, key: string, i: nat)
    requires AllValid(outcomes)
    requires i < |outcomes| && outcomes[i].Entry? && outcomes[i].source == key
    requires forall j :: i < j < |outcomes| && outcomes[j].Entry? ==> outcomes[j].source != key
    ensures Lookup(MergeOutcomes(m, outcomes).urls, key) == Some(outcomes[i].destination)
    decreases |outcomes|
  {
    var tail := outcomes[1..];
    if i == 0 {
      MergeKeepsOthers(Put(m, key, outcomes[0].destination), tail, key);
    } else {
      match outcomes[0]
      case Blank => MergeLastWins(m, tail, key, i - 1);
      case Entry(s, d) => MergeLastWins(Put(m, s, d), tail, key, i - 1);
    }
  }

  /** The sources already in the map keep their places: the old order is a prefix of the new one. */
  lemma {:induction false} MergeKeepsOrder(m: seq<Pair>, outcomes: seq<Outcome>)
    ensures Keys(m) <= Keys(MergeOutcomes(m, outcomes).urls)
    decreases |outcomes|
  {
    if outcomes != [] {
      match outcomes[0]
      case Blank => MergeKeepsOrder(m, outcomes[1..]);
      case Entry(s, d) => MergeKeepsOrder(Put(m, s, d), outcomes[1..]);
      case Invalid(e) =>
    }
  }

  // ---------------------------------------------------------------- the array path

  /** One array element: a nested array is refused, naming its source; anything else is a pair. */
  function ArrayOutcome(source: string, destination: Destination): Outcome {
    match destination
    case NestedArray => Invalid(ArrayDestination(source))
    case Text(d) => Entry(source, d)
  }

  function EntriesOutcomes(entries: seq<(string, Destination)>): (outcomes: seq<Outcome>)
    ensures |outcomes| == |entries|
  {
    seq(|entries|, i requires 0 <= i < |entries| => ArrayOutcome(entries[i].0, entries[i].1))
  }

  /** The array path's merge into `m`. */
  function MergeEntries(m: seq<Pair>, entries: seq<(string, Destination)>): Merged {
    MergeOutcomes(m, EntriesOutcomes(entries))
  }

  /** One step of the array path: the first element either stops the merge or is merged first. */
  lemma MergeEntriesStep(m: seq<Pair>, entries: seq<(string, Destination)>)
    requires entries != []
    ensures MergeEntries(m, entries) ==
      match entries[0].1
      case NestedArray => Merged(m, Some(ArrayDestination(entries[0].0)))
      case Text(d) => MergeEntries(Put(m, entries[0].0, d), entries[1..])
  {
    assert EntriesOutcomes(entries)[1..] == EntriesOutcomes(entries[1..]);
  }

  /** The array path fails exactly at its first nested array, naming that source, with the elements
      before it merged. */
  lemma ArrayPathStopsAtFirstNested(m: seq<Pair>, entries: seq<(string, Destination)>, i: nat)
    requires i < |entries| && entries[i].1 == NestedArray
    requires forall j :: 0 <= j < i ==> entries[j].1.Text?
    ensures MergeEntries(m, entries) == Merged(MergeEntries(m, entries[..i]).urls, Some(ArrayDestination(entries[i].0)))
  {
    var outcomes := EntriesOutcomes(entries);
    assert EntriesOutcomes(entries[..i]) == outcomes[..i];
    MergeStopsAt(m, outcomes, i);
  }

  /** The array path succeeds when no destination is an array. */
  lemma ArrayPathSucceeds(m: seq<Pair>, entries: seq<(string, Destination)>)
    requires forall j :: 0 <= j < |entries| ==> entries[j].1.Text?
    ensures MergeEntries(m, entries).failure == None
  {
    MergeSucceeds(m, EntriesOutcomes(entries));
  }

  /** After a successful array merge a source maps to the last destination given for it. */
  lemma ArrayPathLastWins(m: seq<Pair>, entries: seq<(string, Destination)>, i: nat)
    requires forall j :: 0 <= j < |entries| ==> entries[j].1.Text?
    requires i < |entries| && forall j :: i < j < |entries| ==> entries[j].0 != entries[i].0
    ensures Lookup(MergeEntries(m, entries).urls, entries[i].0) == Some(entries[i].1.value)
  {
    MergeLastWins(m, EntriesOutcomes(entries), entries[i].0, i);
  }

  /** A successful array merge stores every source of the array, unchanged, with its destination. */
  lemma ArrayPathStoresEach(m: seq<Pair>, entries: seq<(string, Destination)>, i: nat)
    requires UniqueKeys(entries)
    requires forall j :: 0 <= j < |entries| ==> entries[j].1.Text?
    requires i < |entries|
    ensures Lookup(MergeEntries(m, entries).urls, entries[i].0) == Some(entries[i].1.value)
  {
    ArrayPathLastWins(m, entries, i);
  }

  /** Sources that the array does not name keep their destinations from earlier calls. */
  lemma ArrayPathKeepsOthers(m: seq<Pair>, entries: seq<(string, Destination)>, key: string)
    requires forall j :: 0 <= j < |entries| ==> entries[j].0 != key
    ensures Lookup(MergeEntries(m, entries).urls, key) == Lookup(m, key)
  {
    MergeKeepsOthers(m, EntriesOutcomes(entries), key);
  }

  // ---------------------------------------------------------------- the string path

  /** One line of delimited text: blank lines are skipped; a line whose separator is missing or comes
      first is refused (strpos() returning 0 reads as false); otherwise the line splits at the first
      separator and the source loses one leading `/`. */
  function ParseLine(line: string, separator: string): Outcome {
    if line == "" then Blank
    else match StrPos(line, separator)
      case None => Invalid(MissingSeparator(line))
      case Some(p) =>
        if p == 0 then Invalid(MissingSeparator(line))
        else
          StrPosEmptyNeedle(line);
          var parts := ExplodeLimit(separator, line, 2);
          if |parts| != 2 then Invalid(BadPartCount(line))
          else
            var source := if |parts[0]| >= 1 && parts[0][0] == '/' then parts[0][1..] else parts[0];
            Entry(source, parts[1])
  }

  /** A line is skipped exactly when it is empty, refused exactly when it is not empty and the
      separator is missing or first occurs at index 0, and the refusal is always the missing-separator
      one: the part-count check after explode() never fails. */
  lemma ParseLineCases(line: string, separator: string)
    ensures ParseLine(line, separator).Blank? <==> line == ""
    ensures ParseLine(line, separator).Invalid? <==>
      line != "" && (StrPos(line, separator).None? || StrPos(line, separator) == Some(0))
    ensures ParseLine(line, separator).Invalid? ==> ParseLine(line, separator).error == MissingSeparator(line)
  {
    if line != "" {
      match StrPos(line, separator)
      case None =>
      case Some(p) =>
        if p != 0 {
          StrPosEmptyNeedle(line);
          SplitAtFirst(separator, line, p);
        }
    }
  }

  /** An empty separator is "found" at index 0 by strpos(), so every non-blank line is refused. */
  lemma EmptySeparatorRefusesAll(line: string)
    requires line != ""
    ensures ParseLine(line, "") == Invalid(MissingSeparator(line))
  {
    StrPosEmptyNeedle(line);
  }

  /** A parsed pair is the line cut at the first separator: the line is the source (with the one
      leading `/` it lost put back), the separator and the destination; the destination may hold
      further separators. */
  lemma ParseLineSplits(line: string, separator: string)
    requires ParseLine(line, separator).Entry?
    ensures var o := ParseLine(line, separator);
      var lead := if line[0] == '/' then "/" else "";
      && separator != []
      && line == lead + o.source + separator + o.destination
      && StrPos(line, separator) == Some(|lead| + |o.source|)
  {
    var p := StrPos(line, separator).value;
    StrPosEmptyNeedle(line);
    SplitAtFirst(separator, line, p);
    var o := ParseLine(line, separator);
    var before := line[..p];
    assert before[0] == line[0];
    if line[0] == '/' {
      assert before == "/" + o.source;
    } else {
      assert before == o.source;
    }
  }

  function LinesOutcomes(lines: seq<string>, separator: string): (outcomes: seq<Outcome>)
    ensures |outcomes| == |lines|
  {
    seq(|lines|, i requires 0 <= i < |lines| => ParseLine(lines[i], separator))
  }

  /** The string path's merge of already split lines into `m`. */
  function MergeLines(m: seq<Pair>, lines: seq<string>, separator: string): Merged {
    MergeOutcomes(m, LinesOutcomes(lines, separator))
  }

  /** One step of the string path: the first line is skipped, stops the merge, or is merged first. */
  lemma MergeLinesStep(m: seq<Pair>, lines: seq<string>, separator: string)
    requires lines != []
    ensures MergeLines(m, lines, separator) ==
      match ParseLine(lines[0], separator)
      case Blank => MergeLines(m, lines[1..], separator)
      case Entry(s, d) => MergeLines(Put(m, s, d), lines[1..], separator)
      case Invalid(e) => Merged(m, Some(e))
  {
    assert LinesOutcomes(lines, separator)[1..] == LinesOutcomes(lines[1..], separator);
  }

  /** The lines of the text: the whole text is trimmed once, then split at every line break; the
      lines themselves are not trimmed. */
  function DelimitedLines(text: string, lineBreak: string): (lines: seq<string>)
    requires lineBreak != []
    ensures Implode(lineBreak, lines) == Trim(text)
  {
    ImplodeExplode(lineBreak, Trim(text));
    Explode(lineBreak, Trim(text))
  }

  /** The string path fails at its first refused line, naming that line, with the lines before it
      merged. */
  lemma StringPathStopsAtFirstBadLine(m: seq<Pair>, lines: seq<string>, separator: string, i: nat)
    requires i < |lines| && lines[i] != ""
    requires StrPos(lines[i], separator).None? || StrPos(lines[i], separator) == Some(0)
    requires forall j :: 0 <= j < i ==> lines[j] == "" || (StrPos(lines[j], separator).Some? && StrPos(lines[j], separator).value > 0)
    ensures MergeLines(m, lines, separator) == Merged(MergeLines(m, lines[..i], separator).urls, Some(MissingSeparator(lines[i])))
  {
    var outcomes := LinesOutcomes(lines, separator);
    forall j | 0 <= j < i ensures !outcomes[j].Invalid? {
      ParseLineCases(lines[j], separator);
    }
    ParseLineCases(lines[i], separator);
    assert LinesOutcomes(lines[..i], separator) == outcomes[..i];
    MergeStopsAt(m, outcomes, i);
  }
}
