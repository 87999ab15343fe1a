/**
 * The PHP string built-ins that Rewriter.php relies on, written out as functions: trim(), strpos(),
 * explode() (with and without a limit) and preg_quote(). implode(), which the class does not call,
 * is here only as the partner of explode() in the round-trip lemmas.
 * PHP strings are byte strings; here a string is a sequence of characters.
 */
module PhpStrings {
  import opened Wrappers

  // ---------------------------------------------------------------- trim()

  /** The characters PHP's trim() removes when no character list is given:
      space, tab, line feed, carriage return, NUL and vertical tab. */
  predicate IsTrimChar(c: char) {
    c == ' ' || c == '\t' || c == '\n' || c == '\r' || c == '\0' || c == 11 as char
  }

  /** Removes the leading trim characters. */
  function TrimStart(s: string): (r: string)
    ensures |r| <= |s| && r == s[|s| - |r|..]
    ensures forall i :: 0 <= i < |s| - |r| ==> IsTrimChar(s[i])
    ensures r == [] || !IsTrimChar(r[0])
  {
    if s != [] && IsTrimChar(s[0]) then TrimStart(s[1..]) else s
  }

  /** Removes the trailing trim characters. */
  function TrimEnd(s: string): (r: string)
    ensures |r| <= |s| && r == s[..|r|]
    ensures forall i :: |r| <= i < |s| ==> IsTrimChar(s[i])
    ensures r == [] || !IsTrimChar(r[|r| - 1])
  {
    if s != [] && IsTrimChar(s[|s| - 1]) then TrimEnd(s[..|s| - 1]) else s
  }

  /** `s[a..b]` is what is left of `s` once only trim characters are cut from both ends. */
  ghost predicate TrimmedAt(s: string, a: int, b: int) {
    && 0 <= a <= b <= |s|
    && (forall i :: 0 <= i < a ==> IsTrimChar(s[i]))
    && (forall i :: b <= i < |s| ==> IsTrimChar(s[i]))
  }

  /** PHP's trim($s): the longest middle part of `s` that neither starts nor ends with a trim character. */
  function Trim(s: string): (r: string)
    ensures exists a, b :: TrimmedAt(s, a, b) && r == s[a..b]
    ensures r == [] || (!IsTrimChar(r[0]) && !IsTrimChar(r[|r| - 1]))
  {
    var t := TrimStart(s);
    var r := TrimEnd(t);
    assert TrimmedAt(s, |s| - |t|, |s| - |t| + |r|) && r == s[|s| - |t|..|s| - |t| + |r|];
    r
  }

  // ---------------------------------------------------------------- strpos()

  /** The text `t` occurs in `s` starting at index `j`. */
  predicate OccursAt(s: string, t: string, j: nat) {
    j + |t| <= |s| && s[j..j + |t|] == t
  }

  /** The first occurrence of `needle` in `haystack` at index `from` or later. */
  function StrPosFrom(haystack: string, needle: string, from: nat): (r: Option<nat>)
    ensures r.Some? ==> from <= r.value && OccursAt(haystack, needle, r.value)
    ensures r.Some? ==> forall j :: from <= j < r.value ==> !OccursAt(haystack, needle, j)
    ensures r.None? ==> forall j :: from <= j ==> !OccursAt(haystack, needle, j)
    decreases |haystack| - from
  {
    if from + |needle| > |haystack| then None
    else if haystack[from..from + |needle|] == needle then Some(from)
    else StrPosFrom(haystack, needle, from + 1)
  }

  /** PHP's strpos($haystack, $needle): the index of the first occurrence, None where PHP returns FALSE.
      As in PHP 8, an empty needle is found at index 0. */
  function StrPos(haystack: string, needle: string): (r: Option<nat>)
    ensures r.Some? ==> OccursAt(haystack, needle, r.value)
    ensures r.Some? ==> forall j :: 0 <= j < r.value ==> !OccursAt(haystack, needle, j)
    ensures r.None? ==> forall j :: 0 <= j ==> !OccursAt(haystack, needle, j)
  {
    StrPosFrom(haystack, needle, 0)
  }

  /** An empty needle is always found at the very start. */
  lemma StrPosEmptyNeedle(haystack: string)
    ensures StrPos(haystack, "") == Some(0)
  {
    assert OccursAt(haystack, "", 0);
  }

  /** For a one-character needle, strpos finds the first index holding that character. */
  lemma StrPosChar(head: string, c: char, tail: string)
    requires c !in head
    ensures StrPos(head, [c]) == None
    ensures StrPos(head + [c] + tail, [c]) == Some(|head|)
  {
    var s := head + [c] + tail;
    assert OccursAt(s, [c], |head|) by { assert s[|head|..|head| + 1] == [c]; }
    forall j | 0 <= j < |head|
      ensures !OccursAt(s, [c], j) && !OccursAt(head, [c], j)
    {
      assert s[j..j + 1] == [head[j]] && head[j..j + 1] == [head[j]];
    }
  }

  /** For a one-character needle, strpos finds the first index holding that character, and
      returns FALSE exactly when the character does not occur. */
  lemma StrPosFindsChar(s: string, c: char)
    ensures StrPos(s, [c]).None? <==> c !in s
    ensures StrPos(s, [c]).Some? ==> var p := StrPos(s, [c]).value; p < |s| && s[p] == c && c !in s[..p]
  {
    forall j | 0 <= j < |s|
      ensures OccursAt(s, [c], j) <==> s[j] == c
    {
      assert s[j..j + 1] == [s[j]];
    }
    match StrPos(s, [c])
    case None =>
    case Some(p) =>
      assert s[p..p + 1] == [c];
  }

  // ---------------------------------------------------------------- explode() and implode()

  /** PHP's explode($separator, $s) without a limit: the parts between successive occurrences.
      PHP refuses an empty separator. */
  function Explode(separator: string, s: string): (parts: seq<string>)
    requires separator != []
    ensures |parts| >= 1
    decreases |s|
  {
    match StrPos(s, separator)
    case None => [s]
    case Some(p) => [s[..p]] + Explode(separator, s[p + |separator|..])
  }

  /** explode() at a one-character separator whose first occurrence follows `head`. */
  lemma ExplodeAtChar(head: string, c: char, tail: string)
    requires c !in head
    ensures Explode([c], head + [c] + tail) == [head] + Explode([c], tail)
  {
    var s := head + [c] + tail;
    StrPosChar(head, c, tail);
    assert s[..|head|] == head && s[|head| + 1..] == tail;
  }

  /** Splitting parts joined by a character that none of them holds gives back the parts. */
  lemma {:induction false} ExplodeImplodeChar(c: char, parts: seq<string>)
    requires |parts| >= 1 && forall i :: 0 <= i < |parts| ==> c !in parts[i]
    ensures Explode([c], Implode([c], parts)) == parts
    decreases |parts|
  {
    if |parts| == 1 {
      StrPosChar(parts[0], c, "");
    } else {
      var rest := parts[1..];
      calc {
        Explode([c], Implode([c], parts));
        Explode([c], parts[0] + [c] + Implode([c], rest));
        { ExplodeAtChar(parts[0], c, Implode([c], rest)); }
        [parts[0]] + Explode([c], Implode([c], rest));
        { ExplodeImplodeChar(c, rest); }
        [parts[0]] + rest;
      }
      assert [parts[0]] + rest == parts;
    }
  }

  /** PHP's explode($separator, $s, $limit) for a positive limit: at most `limit` parts,
      the last one holding the rest of the string. */
  function ExplodeLimit(separator: string, s: string, limit: nat): (parts: seq<string>)
    requires separator != [] && limit >= 1
    ensures 1 <= |parts| <= limit
  {
    if limit == 1 then [s]
    else match StrPos(s, separator)
      case None => [s]
      case Some(p) => [s[..p]] + ExplodeLimit(separator, s[p + |separator|..], limit - 1)
  }

  /** PHP's implode($separator, $parts): the parts with the separator between neighbours. */
  function Implode(separator: string, parts: seq<string>): string {
    if |parts| == 0 then ""
    else if |parts| == 1 then parts[0]
    else parts[0] + separator + Implode(separator, parts[1..])
  }

  /** Joining the parts of explode() with the same separator gives back the original string. */
  lemma {:induction false} ImplodeExplode(separator: string, s: string)
    requires separator != []
    ensures Implode(separator, Explode(separator, s)) == s
    decreases |s|
  {
    match StrPos(s, separator)
    case None =>
    case Some(p) =>
      var rest := s[p + |separator|..];
      var e := Explode(separator, rest);
      var all := [s[..p]] + e;
      assert Explode(separator, s) == all;
      ImplodeExplode(separator, rest);
      assert all[0] == s[..p] && all[1..] == e;
      assert Implode(separator, all) == s[..p] + separator + rest;
      SplitAtFirst(separator, s, p);
  }

  /** No part that explode() returns contains the separator. */
  lemma {:induction false} ExplodePartsFree(separator: string, s: string, i: nat)
    requires separator != [] && i < |Explode(separator, s)|
    ensures StrPos(Explode(separator, s)[i], separator).None?
    decreases |s|
  {
    match StrPos(s, separator)
    case None =>
    case Some(p) =>
      var rest := s[p + |separator|..];
      var parts := Explode(separator, rest);
      assert Explode(separator, s) == [s[..p]] + parts;
      if i == 0 {
        assert Explode(separator, s)[0] == s[..p];
        PrefixBeforeFirstFree(s, separator, p);
      } else {
        assert Explode(separator, s)[i] == parts[i - 1];
        ExplodePartsFree(separator, rest, i - 1);
      }
  }

  /** Nothing before the first occurrence of `t` contains `t`. */
  lemma PrefixBeforeFirstFree(s: string, t: string, p: nat)
    requires t != [] && StrPos(s, t) == Some(p)
    ensures StrPos(s[..p], t).None?
  {
    match StrPos(s[..p], t)
    case None =>
    case Some(j) =>
      assert s[..p][j..j + |t|] == s[j..j + |t|];
      assert OccursAt(s, t, j);
      assert false;
  }

  /** Without any occurrence of the separator, both explode() forms give the whole text as one part. */
  lemma ExplodeUnsplit(separator: string, s: string, limit: nat)
    requires separator != [] && limit >= 1 && StrPos(s, separator).None?
    ensures Explode(separator, s) == [s] && ExplodeLimit(separator, s, limit) == [s]
  {
  }

  /** One step of both explode() forms at an occurrence of the separator. */
  lemma ExplodeStep(separator: string, s: string, limit: nat, p: nat)
    requires separator != [] && limit >= 2 && StrPos(s, separator) == Some(p)
    ensures ExplodeLimit(separator, s, limit) == [s[..p]] + ExplodeLimit(separator, s[p + |separator|..], limit - 1)
    ensures Explode(separator, s) == [s[..p]] + Explode(separator, s[p + |separator|..])
  {
  }

  /** `parts` is what a positive `limit` makes of the unlimited parts `all`, as PHP documents it:
      as many parts as `all` has, but at most `limit`; the first ones equal to those of `all`; the
      last one the rest of `all` joined again with the separator. */
  predicate LimitedParts(separator: string, parts: seq<string>, all: seq<string>, limit: nat) {
    && 1 <= |parts| <= |all|
    && |parts| == (if |all| < limit then |all| else limit)
    && parts[..|parts| - 1] == all[..|parts| - 1]
    && parts[|parts| - 1] == Implode(separator, all[|parts| - 1..])
  }

  /** A limit keeps the first parts of the unlimited explode() and joins the rest into the last one. */
  lemma {:induction false} ExplodeLimitAgrees(separator: string, s: string, limit: nat)
    requires separator != [] && limit >= 1
    ensures LimitedParts(separator, ExplodeLimit(separator, s, limit), Explode(separator, s), limit)
    decreases limit
  {
    if limit == 1 {
      ImplodeExplode(separator, s);
      var all := Explode(separator, s);
      assert all[0..] == all;
    } else {
      match StrPos(s, separator)
      case None =>
      case Some(p) =>
        var rest := s[p + |separator|..];
        ExplodeStep(separator, s, limit, p);
        ExplodeLimitAgrees(separator, rest, limit - 1);
        LimitedPartsPrepend(separator, s[..p], ExplodeLimit(separator, rest, limit - 1), Explode(separator, rest), limit);
    }
  }

  /** Putting the same first part in front of both lists raises the limit by one. */
  lemma LimitedPartsPrepend(separator: string, first: string, parts: seq<string>, all: seq<string>, limit: nat)
    requires limit >= 2 && LimitedParts(separator, parts, all, limit - 1)
    ensures LimitedParts(separator, [first] + parts, [first] + all, limit)
  {
    var n := |parts|;
    assert ([first] + parts)[..n] == [first] + parts[..n - 1];
    assert ([first] + all)[..n] == [first] + all[..n - 1];
    assert ([first] + all)[n..] == all[n - 1..];
  }

  /** explode() with limit 2 splits at the first occurrence of the separator, when there is one,
      into exactly two parts. */
  lemma SplitAtFirst(separator: string, s: string, p: nat)
    requires separator != [] && StrPos(s, separator) == Some(p)
    ensures ExplodeLimit(separator, s, 2) == [s[..p], s[p + |separator|..]]
    ensures s == s[..p] + separator + s[p + |separator|..]
  {
    assert s[p..p + |separator|] == separator;
    assert s == s[..p] + s[p..p + |separator|] + s[p + |separator|..];
  }

  // ---------------------------------------------------------------- preg_quote()

  /** The characters preg_quote() escapes with a backslash (PHP 7.3 and later, no delimiter given). */
  predicate IsRegexSpecial(c: char) {
    c in ".\\+*?[^]$(){}=!<>|:-#"
  }

  /** How preg_quote() writes one character: NUL as `\000`, a special character behind a backslash. */
  function QuoteChar(c: char): string {
    if c == '\0' then "\\000"
    else if IsRegexSpecial(c) then ['\\', c]
    else [c]
  }

  /** PHP's preg_quote($s) without a delimiter. */
  function PregQuote(s: string): (r: string)
    ensures |r| >= |s|
  {
    if s == [] then [] else QuoteChar(s[0]) + PregQuote(s[1..])
  }

  /** Reads back a string written by preg_quote(); None for text preg_quote() never writes. */
  function Unquote(q: string): Option<string>
    decreases |q|
  {
    if q == [] then Some([])
    else if q[0] == '\\' then
      if |q| >= 4 && q[1..4] == "000" then Prepend('\0', Unquote(q[4..]))
      else if |q| >= 2 && IsRegexSpecial(q[1]) then Prepend(q[1], Unquote(q[2..]))
      else None
    else if IsRegexSpecial(q[0]) || q[0] == '\0' then None
    else Prepend(q[0], Unquote(q[1..]))
  }

  function Prepend(c: char, r: Option<string>): Option<string> {
    match r
    case None => None
    case Some(s) => Some([c] + s)
  }

  /** Reading back one character written by preg_quote(). */
  lemma UnquoteChar(c: char, rest: string)
    ensures Unquote(QuoteChar(c) + rest) == Prepend(c, Unquote(rest))
  {
    var q := QuoteChar(c) + rest;
    if c == '\0' {
      assert q[0] == '\\' && q[1..4] == "000" && q[4..] == rest;
    } else if IsRegexSpecial(c) {
      assert q[0] == '\\' && q[1] == c && q[2..] == rest;
      assert !(|q| >= 4 && q[1..4] == "000") by {
        if |q| >= 4 { assert q[1..4][0] == c && !IsRegexSpecial('0'); }
      }
    } else {
      assert q[0] == c && q[1..] == rest;
    }
  }

  /** preg_quote() loses nothing: its output reads back to its input, so distinct strings
      give distinct patterns. */
  lemma {:induction false} UnquotePregQuote(s: string)
    ensures Unquote(PregQuote(s)) == Some(s)
  {
    if s != [] {
      UnquotePregQuote(s[1..]);
      UnquoteChar(s[0], PregQuote(s[1..]));
      assert s == [s[0]] + s[1..];
    }
  }

  /** A string with no special character and no NUL passes through preg_quote() unchanged. */
  lemma {:induction false} PregQuotePlain(s: string)
    requires forall i :: 0 <= i < |s| ==> !IsRegexSpecial(s[i]) && s[i] != '\0'
    ensures PregQuote(s) == s
  {
    if s != [] {
      PregQuotePlain(s[1..]);
      assert s == [s[0]] + s[1..];
    }
  }

  /** preg_quote() never writes a line break that was not in its input. */
  lemma {:induction false} PregQuoteKeepsLineFree(s: string)
    requires '\n' !in s
    ensures '\n' !in PregQuote(s)
  {
    if s != [] {
      assert forall i :: 0 <= i < |s| - 1 ==> s[1..][i] == s[i + 1];
      PregQuoteKeepsLineFree(s[1..]);
      assert '\n' !in QuoteChar(s[0]);
    }
  }
}
