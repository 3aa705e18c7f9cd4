/**
 * The latency strings the probe produces, their parsing back into
 * milliseconds, and the colour band shown for a latency
 * (the helper functions `ping`, `parse_latency` and `get_latency_color`).
 */
module Latency {
  import opened Wrappers

  /** Milliseconds recorded for a server without a host, for a probe that
      timed out, and for a string without digits; also the starting value. */
  const Unreachable: nat := 9999

  /** What the probe reports for the entry without a host (an em dash). */
  const NoHostText: string := "\U{2014}"
  const TimeoutText: string := "timeout"
  const MsSuffix: string := " ms"

  predicate IsDigit(c: char) { '0' <= c <= '9' }

  predicate AllDigits(s: string) { forall k :: 0 <= k < |s| ==> IsDigit(s[k]) }

  predicate NoDigit(s: string) { forall k :: 0 <= k < |s| ==> !IsDigit(s[k]) }

  function DigitChar(d: nat): (c: char)
    requires d < 10
    ensures IsDigit(c) && c as int - '0' as int == d
  {
    ('0' as int + d) as char
  }

  /** Value of a string of decimal digits, most significant digit first. */
  function DigitsValue(s: string): nat
    requires AllDigits(s)
  {
    if s == [] then 0 else DigitsValue(s[..|s| - 1]) * 10 + (s[|s| - 1] as int - '0' as int)
  }

  /** Decimal text of n without leading zeros, as Python's str() writes a
      non-negative int; reading it back gives n. */
  function NatToString(n: nat): (s: string)
    ensures |s| > 0 && AllDigits(s)
    ensures s[0] == '0' <==> n == 0
    ensures n == 0 ==> s == "0"
    ensures DigitsValue(s) == n
  {
    if n < 10 then [DigitChar(n)]
    else
      var prefix := NatToString(n / 10);
      var s := prefix + [DigitChar(n % 10)];
      assert s[..|s| - 1] == prefix;
      s
  }

  /**
   * The text ping(host) is meant to return. `measuredMs` is what the ICMP
   * probe measured (see Measured): None when it answered nothing, raised or
   * failed, otherwise its delay already truncated to whole milliseconds.
   * PingAsWritten is what the program returns for a failed probe instead.
   */
  function Ping(host: Option<string>, measuredMs: Option<nat>): (text: string)
    ensures text == NoHostText <==> host.None?
    ensures text == TimeoutText <==> host.Some? && measuredMs.None?
    ensures host.Some? && measuredMs.Some? ==> text == NatToString(measuredMs.value) + MsSuffix
  {
    if host.None? then NoHostText
    else if measuredMs.None? then TimeoutText
    else
      var text := NatToString(measuredMs.value) + MsSuffix;
      assert text[0] != NoHostText[0] && text[0] != TimeoutText[0];
      text
  }

  /**
   * What the ICMP probe (ping3's `ping`) hands back: a delay, already
   * truncated to whole milliseconds; None when no answer came within the
   * timeout; or False when the probe failed without raising (a host name
   * that cannot be resolved, for one). A probe that raises is a NoAnswer
   * too, since ping catches the exception and reports a timeout.
   */
  datatype Reply = Answered(ms: nat) | NoAnswer | Failed

  /** The milliseconds a reply measured: only an answer measures anything. */
  function Measured(reply: Reply): (ms: Option<nat>)
    ensures ms.Some? <==> reply.Answered?
    ensures reply.Answered? ==> ms.value == reply.ms
  {
    if reply.Answered? then Some(reply.ms) else None
  }

  /**
   * ping as written: only a None delay reads as a timeout, so a False
   * reply goes through `int(delay * 1000)` and is reported as "0 ms".
   */
  function PingAsWritten(host: Option<string>, reply: Reply): (text: string)
    ensures reply != Failed || host.None? ==> text == Ping(host, Measured(reply))
    ensures host.Some? && reply == Failed ==> text == Ping(host, Some(0))
  {
    if host.None? then NoHostText
    else
      match reply
      case NoAnswer => TimeoutText
      case Failed => NatToString(0) + MsSuffix
      case Answered(ms) => NatToString(ms) + MsSuffix
  }

  /** A failed probe is shown as the fastest possible answer, in green, where
      it should read as a timeout at 9999, in gray. */
  lemma {:induction false} FailedProbeReadsAsZero(host: string)
    ensures ParseLatency(Some(PingAsWritten(Some(host), Failed))) == 0
    ensures LatencyColor(ParseLatency(Some(PingAsWritten(Some(host), Failed)))) == Green
    ensures ParseLatency(Some(Ping(Some(host), Measured(Failed)))) == Unreachable
    ensures LatencyColor(ParseLatency(Some(Ping(Some(host), Measured(Failed))))) == Gray
  {
    ParseFormatted(0);
    PingThenParse(Some(host), None);
  }

  /** Index of the first digit of s at or after `from`, or |s| if there is none. */
  function FirstDigit(s: string, from: nat): (i: nat)
    requires from <= |s|
    ensures from <= i <= |s|
    ensures forall k :: from <= k < i ==> !IsDigit(s[k])
    ensures i < |s| ==> IsDigit(s[i])
    decreases |s| - from
  {
    if from == |s| || IsDigit(s[from]) then from else FirstDigit(s, from + 1)
  }

  /** End of the run of digits that starts at `from`. */
  function RunEnd(s: string, from: nat): (j: nat)
    requires from <= |s|
    ensures from <= j <= |s|
    ensures forall k :: from <= k < j ==> IsDigit(s[k])
    ensures j < |s| ==> !IsDigit(s[j])
    decreases |s| - from
  {
    if from < |s| && IsDigit(s[from]) then RunEnd(s, from + 1) else from
  }

  /** s[i..j] is the leftmost maximal run of decimal digits in s, which is
      what a search for the pattern `(\d+)` matches. */
  ghost predicate IsFirstDigitRun(s: string, i: nat, j: nat)
  {
    i < j <= |s| && NoDigit(s[..i]) && AllDigits(s[i..j]) && (j == |s| || !IsDigit(s[j]))
  }

  predicate IsSentinelText(s: string) { s == NoHostText || s == TimeoutText }

  /**
   * parse_latency: 9999 for None, the em dash and "timeout"; otherwise the
   * value of the first run of digits; 9999 when there is no digit at all.
   */
  function ParseLatency(value: Option<string>): (ms: nat)
    ensures value.None? || IsSentinelText(value.value) ==> ms == Unreachable
    ensures value.Some? && NoDigit(value.value) ==> ms == Unreachable
    ensures forall i: nat, j: nat ::
      (value.Some? && !IsSentinelText(value.value) && IsFirstDigitRun(value.value, i, j)) ==>
        ms == DigitsValue(value.value[i..j])
  {
    match value
    case None => Unreachable
    case Some(s) =>
      if IsSentinelText(s) then Unreachable
      else
        var i := FirstDigit(s, 0);
        if i == |s| then Unreachable
        else
          FirstDigitRunUnique(s, i);
          DigitsValue(s[i..RunEnd(s, i)])
  }

  /** The run found by FirstDigit and RunEnd is the only first digit run. */
  lemma FirstDigitRunUnique(s: string, i: nat)
    requires i == FirstDigit(s, 0) && i < |s|
    ensures IsFirstDigitRun(s, i, RunEnd(s, i))
    ensures forall i': nat, j': nat :: IsFirstDigitRun(s, i', j') ==> i' == i && j' == RunEnd(s, i)
  {
    var j := RunEnd(s, i);
    forall i': nat, j': nat | IsFirstDigitRun(s, i', j') ensures i' == i && j' == j {
      assert IsDigit(s[i']) by { assert s[i'..j'][0] == s[i']; }
      forall k | 0 <= k < i' ensures !IsDigit(s[k]) { assert s[..i'][k] == s[k]; }
      forall k | i' <= k < j' ensures IsDigit(s[k]) { assert s[i'..j'][k - i'] == s[k]; }
    }
  }

  /** A string that holds a digit has a first digit run, so the three cases
      of ParseLatency cover every input. */
  lemma FirstDigitRunExists(s: string)
    requires !NoDigit(s)
    ensures FirstDigit(s, 0) < |s|
    ensures IsFirstDigitRun(s, FirstDigit(s, 0), RunEnd(s, FirstDigit(s, 0)))
  {
    var k :| 0 <= k < |s| && IsDigit(s[k]);
    assert FirstDigit(s, 0) <= k;
    FirstDigitRunUnique(s, FirstDigit(s, 0));
  }

  /** Round trip: the text "<n> ms" written on a successful probe parses back to n. */
  lemma {:induction false} ParseFormatted(n: nat)
    ensures ParseLatency(Some(NatToString(n) + MsSuffix)) == n
  {
    var d := NatToString(n);
    var s := d + MsSuffix;
    assert s[0] == d[0];
    assert !IsSentinelText(s) by {
      assert s[0] != NoHostText[0] && s[0] != TimeoutText[0];
    }
    assert s[0..|d|] == d;
    assert s[|d|] == ' ';
    assert IsFirstDigitRun(s, 0, |d|);
  }

  /** One probe followed by parsing: the measured milliseconds when the
      server has a host and answered, 9999 otherwise. */
  lemma {:induction false} PingThenParse(host: Option<string>, measuredMs: Option<nat>)
    ensures ParseLatency(Some(Ping(host, measuredMs)))
      == if host.Some? && measuredMs.Some? then measuredMs.value else Unreachable
  {
    if host.Some? && measuredMs.Some? {
      ParseFormatted(measuredMs.value);
    }
  }

  /** The text colours of the window. */
  datatype Colour = Green | Amber | Red | Gray | White | Highlight

  /** The colour value handed to the toolkit for each colour: a `#RRGGBB`
      code, except for the named colours gray and white. */
  function Hex(c: Colour): (h: string)
    ensures (c != Gray && c != White) <==> (|h| == 7 && h[0] == '#')
  {
    match c
    case Green => "#4CAF50"
    case Amber => "#FFC107"
    case Red => "#F44336"
    case Gray => "gray"
    case White => "white"
    case Highlight => "#10B981"
  }

  /** get_latency_color: four disjoint bands that cover every integer. */
  function LatencyColor(ms: int): (color: Colour)
    ensures color == Green <==> ms <= 50
    ensures color == Amber <==> 50 < ms <= 100
    ensures color == Red <==> 100 < ms < Unreachable
    ensures color == Gray <==> Unreachable <= ms
  {
    if ms <= 50 then Green
    else if ms <= 100 then Amber
    else if ms < Unreachable then Red
    else Gray
  }
}
