/**
 * The in-memory view of GameSettings.ini that load_current_server reads and
 * save_choice updates: sections of key/value pairs, with the
 * `[ONLINE] DataCenterHint` entry that selects the game's region.
 */
module Config {
  import opened Wrappers

  type Section = map<string, string>
  type Ini = map<string, Section>

  const OnlineSection: string := "ONLINE"
  const HintKey: string := "DataCenterHint"

  /** The characters Python's str.strip() removes (those for which str.isspace() holds). */
  predicate IsSpace(c: char)
  {
    || ('\t' <= c <= '\r')
    || ('\U{1C}' <= c <= ' ')
    || c == '\U{85}' || c == '\U{A0}' || c == '\U{1680}'
    || ('\U{2000}' <= c <= '\U{200A}')
    || c == '\U{2028}' || c == '\U{2029}' || c == '\U{202F}' || c == '\U{205F}' || c == '\U{3000}'
  }

  predicate AllSpace(s: string) { forall k :: 0 <= k < |s| ==> IsSpace(s[k]) }

  predicate NoSpace(s: string) { forall k :: 0 <= k < |s| ==> !IsSpace(s[k]) }

  /** s without its leading whitespace. */
  function TrimLeft(s: string): (r: string)
    ensures |r| <= |s| && r == s[|s| - |r|..]
    ensures AllSpace(s[..|s| - |r|])
    ensures r == [] || !IsSpace(r[0])
  {
    if s != [] && IsSpace(s[0]) then
      var r := TrimLeft(s[1..]);
      assert s[..|s| - |r|] == [s[0]] + s[1..][..|s| - 1 - |r|];
      r
    else s
  }

  /** s without its trailing whitespace. */
  function TrimRight(s: string): (r: string)
    ensures |r| <= |s| && r == s[..|r|]
    ensures AllSpace(s[|r|..])
    ensures r == [] || !IsSpace(r[|r| - 1])
  {
    if s != [] && IsSpace(s[|s| - 1]) then
      var r := TrimRight(s[..|s| - 1]);
      assert s[|r|..] == s[..|s| - 1][|r|..] + [s[|s| - 1]];
      r
    else s
  }

  /** str.strip(): s without leading and trailing whitespace; a string
      without whitespace is left as it is. */
  function Strip(s: string): (r: string)
    ensures r == [] || (!IsSpace(r[0]) && !IsSpace(r[|r| - 1]))
    ensures NoSpace(s) ==> r == s
  {
    var l := TrimLeft(s);
    var r := TrimRight(l);
    assert |l| < |s| ==> IsSpace(s[0]) by {
      if |l| < |s| { assert s[..|s| - |l|][0] == s[0]; }
    }
    assert |r| < |l| ==> IsSpace(l[|r|]) by {
      if |r| < |l| { assert l[|r|..][0] == l[|r|]; }
    }
    r
  }

  /** What str.strip() returns: the part of s between its leading and its
      trailing whitespace. */
  lemma {:induction false} StripKeepsMiddle(s: string)
    ensures var i := |s| - |TrimLeft(s)|; var r := Strip(s);
      i + |r| <= |s| && r == s[i..i + |r|] && AllSpace(s[..i]) && AllSpace(s[i + |r|..])
  {
    var l := TrimLeft(s);
    var r := TrimRight(l);
    var i := |s| - |l|;
    assert s[i..i + |r|] == l[..|r|];
    var tail := s[i + |r|..];
    assert AllSpace(tail) by {
      forall k | 0 <= k < |tail| ensures IsSpace(tail[k]) {
        assert tail[k] == l[|r|..][k];
      }
    }
  }

  /** The stripped DataCenterHint of the ONLINE section, when both exist. */
  function StoredHint(ini: Ini): (hint: Option<string>)
    ensures hint.Some? <==> OnlineSection in ini && HintKey in ini[OnlineSection]
    ensures hint.Some? ==> hint.value == [] || (!IsSpace(hint.value[0]) && !IsSpace(hint.value[|hint.value| - 1]))
  {
    if OnlineSection in ini && HintKey in ini[OnlineSection]
    then Some(Strip(ini[OnlineSection][HintKey]))
    else None
  }

  /**
   * What save_choice does to the configuration it has read: creates an
   * empty ONLINE section when there is none, then sets DataCenterHint.
   */
  function SetHint(ini: Ini, code: string): (r: Ini)
    ensures r.Keys == ini.Keys + {OnlineSection}
    ensures forall s :: s in ini && s != OnlineSection ==> r[s] == ini[s]
    ensures r[OnlineSection].Keys == (if OnlineSection in ini then ini[OnlineSection].Keys else {}) + {HintKey}
    ensures r[OnlineSection][HintKey] == code
    ensures forall k :: (OnlineSection in ini && k in ini[OnlineSection] && k != HintKey) ==>
      r[OnlineSection][k] == ini[OnlineSection][k]
  {
    var online := if OnlineSection in ini then ini[OnlineSection] else map[];
    ini[OnlineSection := online[HintKey := code]]
  }

  /** A hint written without whitespace is read back unchanged. */
  lemma {:induction false} HintReadsBack(ini: Ini, code: string)
    requires NoSpace(code)
    ensures StoredHint(SetHint(ini, code)) == Some(code)
  {
  }
}
