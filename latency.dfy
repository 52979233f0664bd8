/**
 * Reading the reply time out of one ping transcript: the leftmost match of
 * `[=<]\s*(\d+)\s*(ms|<unit>)` under re.IGNORECASE, and the number its digit
 * group denotes.
 */
module Latency {
  import opened Wrappers
  import opened Decimal

  /** `\s` over ASCII: space, tab, line feed, vertical tab, form feed, carriage return and U+001C..U+001F. */
  predicate IsSpace(c: char) {
    c == ' ' || '\t' <= c <= '\r' || '\U{1C}' <= c <= '\U{1F}'
  }

  predicate AllSpaces(s: string) {
    forall i :: 0 <= i < |s| ==> IsSpace(s[i])
  }

  /** Simple lower-casing of ASCII and basic Cyrillic capitals, the case folding re.IGNORECASE applies to the unit letters. */
  function Lower(c: char): char {
    if 'A' <= c <= 'Z' || '\U{0410}' <= c <= '\U{042F}' then (c as int + 32) as char else c
  }

  /** The English unit. */
  const Ms: string := "ms"
  /** The second unit exactly as the pattern spells it: U+2568 U+255D U+2564 U+0411. */
  const RussianMs: string := "\U{2568}\U{255D}\U{2564}\U{0411}"

  /** The literal lit occurs at position m of s, letters compared without regard to case. */
  predicate LiteralAt(s: string, m: nat, lit: string) {
    m + |lit| <= |s| && forall p :: 0 <= p < |lit| ==> Lower(s[m + p]) == Lower(lit[p])
  }

  /** The alternation `(ms|<unit>)` matches at position m. */
  predicate UnitAt(s: string, m: nat) {
    LiteralAt(s, m, Ms) || LiteralAt(s, m, RussianMs)
  }

  /** The end of the longest run of characters of one class starting at p. */
  function RunEnd(s: string, p: nat, inClass: char -> bool): (q: nat)
    requires p <= |s|
    ensures p <= q <= |s|
    ensures forall r :: p <= r < q ==> inClass(s[r])
    ensures q < |s| ==> !inClass(s[q])
    decreases |s| - p
  {
    if p < |s| && inClass(s[p]) then RunEnd(s, p + 1, inClass) else p
  }

  /**
   * The pattern matched with its `[=<]` at position i: after the marker the
   * spaces, the digits and the spaces are each taken as a longest run.
   */
  function MatchAt(s: string, i: nat): Option<nat> {
    if i < |s| && (s[i] == '=' || s[i] == '<') then
      var j := RunEnd(s, i + 1, IsSpace);
      var k := RunEnd(s, j, IsDigit);
      var m := RunEnd(s, k, IsSpace);
      if j < k && UnitAt(s, m) then Some(Value(s[j..k])) else None
    else
      None
  }

  /** `re.search` from position i on: the first position at which the pattern matches. */
  function SearchFrom(s: string, i: nat): Option<nat>
    requires i <= |s|
    decreases |s| - i
  {
    if i == |s| then None
    else if MatchAt(s, i).Some? then MatchAt(s, i)
    else SearchFrom(s, i + 1)
  }

  /** The latency in `ping_ip`'s output text, or None when the pattern does not occur. */
  function ParseLatency(output: string): Option<nat> {
    SearchFrom(output, 0)
  }

  /** `ping_ip` on one run of ping: None when running it raised, else the parsed latency. */
  function PingIp(output: Option<string>): Option<nat> {
    match output
    case None => None
    case Some(text) => ParseLatency(text)
  }

  /** A ping yields a latency exactly when it ran and the pattern occurs in its text. */
  lemma PingIpSome(output: Option<string>)
    ensures PingIp(output).Some? <==> output.Some? && exists i: nat :: MatchStartsAt(output.value, i)
  {
    if output.Some? {
      ParseLatencyNone(output.value);
    }
  }

  // ---- The pattern, stated as a regular expression match -------------------

  /**
   * s[i..m + |unit|] is a match: the marker at i, spaces s[i+1..j], the digit
   * group s[j..k] (at least one digit), spaces s[k..m], then a unit at m.
   */
  ghost predicate MatchSpan(s: string, i: nat, j: nat, k: nat, m: nat) {
    i < j <= k <= m <= |s| && i + 1 <= j && j < k
    && (s[i] == '=' || s[i] == '<')
    && AllSpaces(s[i + 1..j]) && AllDigits(s[j..k]) && AllSpaces(s[k..m])
    && UnitAt(s, m)
  }

  ghost predicate MatchStartsAt(s: string, i: nat) {
    exists j: nat, k: nat, m: nat :: MatchSpan(s, i, j, k, m)
  }

  // ---- MatchAt decides matching at one position ------------------------------

  lemma UnitStartsWithNoSpaceOrDigit(s: string, m: nat)
    requires UnitAt(s, m)
    ensures m < |s| && !IsSpace(s[m]) && !IsDigit(s[m])
  {
    assert Lower(s[m]) == Lower(Ms[0]) || Lower(s[m]) == Lower(RussianMs[0]);
  }

  /** At a given position a match, if any, is unique and is the one MatchAt finds. */
  lemma {:induction false} MatchSpanUnique(s: string, i: nat, j: nat, k: nat, m: nat)
    requires MatchSpan(s, i, j, k, m)
    ensures j == RunEnd(s, i + 1, IsSpace)
    ensures k == RunEnd(s, j, IsDigit)
    ensures m == RunEnd(s, k, IsSpace)
    ensures MatchAt(s, i) == Some(Value(s[j..k]))
  {
    UnitStartsWithNoSpaceOrDigit(s, m);
    RunEndIs(s, i + 1, j, IsSpace);
    RunEndIs(s, j, k, IsDigit);
    RunEndIs(s, k, m, IsSpace);
  }

  /** A run of a class ending at a non-member is the longest run. */
  lemma RunEndIs(s: string, p: nat, q: nat, inClass: char -> bool)
    requires p <= q < |s|
    requires forall r :: p <= r < q ==> inClass(s[r])
    requires !inClass(s[q])
    ensures RunEnd(s, p, inClass) == q
    decreases q - p
  {
    if p < q {
      RunEndIs(s, p + 1, q, inClass);
    }
  }

  /** MatchAt finds a value exactly where a match starts. */
  lemma MatchAtComplete(s: string, i: nat)
    ensures MatchAt(s, i).Some? <==> MatchStartsAt(s, i)
  {
    if MatchAt(s, i).Some? {
      var j := RunEnd(s, i + 1, IsSpace);
      var k := RunEnd(s, j, IsDigit);
      var m := RunEnd(s, k, IsSpace);
      assert MatchSpan(s, i, j, k, m);
    }
    if MatchStartsAt(s, i) {
      var j: nat, k: nat, m: nat :| MatchSpan(s, i, j, k, m);
      MatchSpanUnique(s, i, j, k, m);
    }
  }

  // ---- The leftmost match ------------------------------------------------------

  ghost predicate NoMatchBefore(s: string, i: nat) {
    forall i' :: 0 <= i' < i ==> !MatchStartsAt(s, i')
  }

  lemma {:induction false} SearchFromFinds(s: string, from: nat, i: nat, j: nat, k: nat, m: nat)
    requires from <= i && MatchSpan(s, i, j, k, m)
    requires forall i' :: from <= i' < i ==> !MatchStartsAt(s, i')
    ensures SearchFrom(s, from) == Some(Value(s[j..k]))
    decreases i - from
  {
    if from == i {
      MatchSpanUnique(s, i, j, k, m);
    } else {
      MatchAtComplete(s, from);
      SearchFromFinds(s, from + 1, i, j, k, m);
    }
  }

  lemma {:induction false} SearchFromSound(s: string, from: nat)
    requires from <= |s|
    ensures SearchFrom(s, from).Some? ==>
      exists i: nat, j: nat, k: nat, m: nat :: from <= i && MatchSpan(s, i, j, k, m)
        && (forall i' :: from <= i' < i ==> !MatchStartsAt(s, i'))
        && SearchFrom(s, from).value == Value(s[j..k])
    ensures SearchFrom(s, from).None? ==> forall i :: from <= i ==> !MatchStartsAt(s, i)
    decreases |s| - from
  {
    if from == |s| {
      assert forall i: nat :: from <= i ==> !MatchStartsAt(s, i);
    } else {
      MatchAtComplete(s, from);
      if MatchAt(s, from).Some? {
        var j := RunEnd(s, from + 1, IsSpace);
        var k := RunEnd(s, j, IsDigit);
        var m := RunEnd(s, k, IsSpace);
        assert MatchSpan(s, from, j, k, m);
      } else {
        SearchFromSound(s, from + 1);
        if SearchFrom(s, from + 1).Some? {
          var i: nat, j: nat, k: nat, m: nat :| from + 1 <= i && MatchSpan(s, i, j, k, m)
            && (forall i' :: from + 1 <= i' < i ==> !MatchStartsAt(s, i'))
            && SearchFrom(s, from + 1).value == Value(s[j..k]);
          assert forall i' :: from <= i' < i ==> !MatchStartsAt(s, i');
        }
      }
    }
  }

  /** The leftmost match determines the parsed latency: its digit group's value. */
  lemma ParseLatencyLeftmost(s: string, i: nat, j: nat, k: nat, m: nat)
    requires MatchSpan(s, i, j, k, m) && NoMatchBefore(s, i)
    ensures ParseLatency(s) == Some(Value(s[j..k]))
  {
    SearchFromFinds(s, 0, i, j, k, m);
  }

  /** A parsed latency always comes from the leftmost match. */
  lemma ParseLatencySound(s: string)
    ensures ParseLatency(s).Some? ==>
      exists i: nat, j: nat, k: nat, m: nat :: MatchSpan(s, i, j, k, m) && NoMatchBefore(s, i)
        && ParseLatency(s).value == Value(s[j..k])
  {
    SearchFromSound(s, 0);
  }

  /** The parser gives None exactly when the pattern occurs nowhere in the text. */
  lemma ParseLatencyNone(s: string)
    ensures ParseLatency(s).None? <==> forall i :: !MatchStartsAt(s, i)
  {
    SearchFromSound(s, 0);
    if ParseLatency(s).Some? {
      var i: nat, j: nat, k: nat, m: nat :| MatchSpan(s, i, j, k, m) && NoMatchBefore(s, i)
        && ParseLatency(s).value == Value(s[j..k]);
      assert MatchStartsAt(s, i);
    }
  }

  /** Text without `=` or `<` (a timeout message, say) yields no latency. */
  lemma NoMarkerNoLatency(s: string)
    requires forall p :: 0 <= p < |s| ==> s[p] != '=' && s[p] != '<'
    ensures ParseLatency(s) == None
  {
    ParseLatencyNone(s);
    assert forall i: nat :: !MatchStartsAt(s, i);
  }

  /** The search passes over text that holds no `=` or `<`. */
  lemma {:induction false} SearchSkips(s: string, from: nat, i: nat)
    requires from <= i <= |s|
    requires '=' !in s[from..i] && '<' !in s[from..i]
    ensures SearchFrom(s, from) == SearchFrom(s, i)
    decreases i - from
  {
    if from < i {
      assert s[from] == s[from..i][0] && s[from + 1..i] == s[from..i][1..];
      SearchSkips(s, from + 1, i);
    }
  }

  /** The tail of a Windows reply line. */
  const ReplyLine: string := "bytes=32 time=23ms"

  /** `bytes=32` is followed by `t`, not by a unit: no match at the first `=`. */
  lemma ReplyLineFirstMarker(s: string)
    requires s == ReplyLine
    ensures SearchFrom(s, 5) == SearchFrom(s, 13)
  {
    assert s[5] == '=' && s[6] == '3' && s[7] == '2' && s[8] == ' ' && s[9] == 't';
    RunEndIs(s, 6, 6, IsSpace);
    RunEndIs(s, 6, 8, IsDigit);
    RunEndIs(s, 8, 9, IsSpace);
    assert !LiteralAt(s, 9, Ms) && !LiteralAt(s, 9, RussianMs) by {
      assert Lower(s[9]) == 't' && Ms[0] == 'm' && RussianMs[0] == '\U{2568}';
      assert Lower(Ms[0]) == 'm' && Lower(RussianMs[0]) == '\U{2568}';
    }
    assert MatchAt(s, 5) == None;
    assert s[6..13] == "32 time";
    SearchSkips(s, 6, 13);
  }

  /** `=23ms` matches. */
  lemma ReplyLineSecondMarker(s: string)
    requires s == ReplyLine
    ensures SearchFrom(s, 13) == Some(23)
  {
    assert s[13] == '=' && s[14] == '2' && s[15] == '3' && s[16] == 'm' && s[17] == 's';
    RunEndIs(s, 14, 14, IsSpace);
    RunEndIs(s, 14, 16, IsDigit);
    assert RunEnd(s, 16, IsSpace) == 16;
    assert LiteralAt(s, 16, Ms);
    assert s[14..16] == "23";
    assert Value("23") == 23 by { assert "23"[..1] == "2"; assert "2"[..0] == []; }
    assert MatchAt(s, 13) == Some(23);
  }

  /** The leftmost match of a reply line is `=23ms`, after the first `=` fails. */
  lemma EnglishReply(s: string)
    requires s == ReplyLine
    ensures ParseLatency(s) == Some(23)
  {
    ReplyLineFirstMarker(s);
    ReplyLineSecondMarker(s);
    assert s[0..5] == "bytes";
    SearchSkips(s, 0, 5);
  }

  /** Sub-millisecond replies read `time<1ms`; upper-case units match too. */
  lemma SubMillisecondReply()
    ensures ParseLatency("time<1MS") == Some(1)
  {
    var s := "time<1MS";
    assert s[4] == '<' && s[5] == '1' && s[6] == 'M' && s[7] == 'S';
    RunEndIs(s, 5, 5, IsSpace);
    RunEndIs(s, 5, 6, IsDigit);
    RunEndIs(s, 6, 6, IsSpace);
    assert LiteralAt(s, 6, Ms);
    assert s[5..6] == "1";
    assert Value("1") == 1 by { assert "1"[..0] == []; }
    assert MatchAt(s, 4) == Some(1);
    assert s[0..4] == "time";
    SearchSkips(s, 0, 4);
  }

  lemma TimedOut()
    ensures ParseLatency("Request timed out.") == None
  {
    NoMarkerNoLatency("Request timed out.");
  }
}
