/**
 * The R6ServerSelect window's state and the operations that change it:
 * one tick of a server's probe loop, the refresh that follows it
 * (update_ui), clicking a row (select_server), and loading and saving the
 * region hint of GameSettings.ini.
 */
module App {
  import opened Wrappers
  import opened Latency
  import opened Regions
  import opened Ranking
  import opened Config

  /** Ping column text of a row before its first probe (an ellipsis). */
  const Pending: string := "\U{2026}"

  /**
   * The row colours select_server leaves behind: every row's name white
   * and its ping column in the colour of its latency band, except the
   * clicked row, whose name and ping column are both highlighted.
   */
  ghost predicate ShowsSelection(nameColor: map<Server, Colour>, pingColor: map<Server, Colour>,
                                 lat: Latencies<Server>, selected: Server)
  {
    && (forall n :: n in nameColor && nameColor[n] == (if n == selected then Highlight else White))
    && (forall n :: n in pingColor &&
          pingColor[n] == (if n == selected then Highlight else LatencyColor(Key(lat, n))))
  }

  /**
   * The reset loop of select_server over the rows in their creation order:
   * each row's name turns white and its ping column takes the colour of
   * its latency band; colours of other labels are left alone.
   */
  method ResetRows(rows: seq<Server>, lat: Latencies<Server>,
                   nameColor: map<Server, Colour>, pingColor: map<Server, Colour>)
    returns (nc: map<Server, Colour>, pc: map<Server, Colour>)
    ensures forall n :: n in rows ==> n in nc && nc[n] == White
    ensures forall n :: n in rows ==> n in pc && pc[n] == LatencyColor(Key(lat, n))
    ensures forall n :: n !in rows ==> (n in nc <==> n in nameColor) && (n in nc ==> nc[n] == nameColor[n])
    ensures forall n :: n !in rows ==> (n in pc <==> n in pingColor) && (n in pc ==> pc[n] == pingColor[n])
  {
    nc, pc := nameColor, pingColor;
    var i := 0;
    while i < |rows|
      invariant i <= |rows|
      invariant forall n :: n in rows[..i] ==> n in nc && nc[n] == White
      invariant forall n :: n in rows[..i] ==> n in pc && pc[n] == LatencyColor(Key(lat, n))
      invariant forall n :: n !in rows[..i] ==> (n in nc <==> n in nameColor) && (n in nc ==> nc[n] == nameColor[n])
      invariant forall n :: n !in rows[..i] ==> (n in pc <==> n in pingColor) && (n in pc ==> pc[n] == pingColor[n])
    {
      var n := rows[i];
      assert rows[..i + 1] == rows[..i] + [n];
      nc := nc[n := White];
      pc := pc[n := LatencyColor(Key(lat, n))];
      i := i + 1;
    }
    assert rows[..i] == rows;
  }

  /** The region a configuration selects on load, if any: the first region
      whose code equals the stripped DataCenterHint of [ONLINE]. */
  function ConfiguredServer(source: Option<Ini>): (r: Option<Server>)
    ensures r.Some? ==> source.Some? && StoredHint(source.value) == Some(Code(r.value))
    ensures r.None? ==> source.None? || StoredHint(source.value).None?
                        || forall s :: Code(s) != StoredHint(source.value).value
  {
    if source.None? then None
    else
      match StoredHint(source.value)
      case None => None
      case Some(hint) => ServerWithCode(hint)
  }

  predicate VisibleAscii(s: string)
  {
    forall k :: 0 <= k < |s| ==> '!' <= s[k] <= '~'
  }

  // The codes are checked a few at a time to keep each proof small.
  lemma CodesVisibleA()
    ensures VisibleAscii(Code(Auto)) && VisibleAscii(Code(AustraliaEast))
    ensures VisibleAscii(Code(BrazilSouth)) && VisibleAscii(Code(CentralUs))
  {
  }

  lemma CodesVisibleB()
    ensures VisibleAscii(Code(EastAsia)) && VisibleAscii(Code(EastUs))
    ensures VisibleAscii(Code(JapanEast)) && VisibleAscii(Code(NorthEurope))
  {
  }

  lemma CodesVisibleC()
    ensures VisibleAscii(Code(SouthAfricaNorth)) && VisibleAscii(Code(SouthCentralUs))
    ensures VisibleAscii(Code(SouthEastAsia))
  {
  }

  lemma CodesVisibleD()
    ensures VisibleAscii(Code(UaeNorth)) && VisibleAscii(Code(WestEurope))
    ensures VisibleAscii(Code(WestUs))
  {
  }

  lemma VisibleAsciiHasNoSpace(s: string)
    requires VisibleAscii(s)
    ensures NoSpace(s)
  {
  }

  /** No region code holds whitespace, so stripping leaves it intact. */
  lemma CodesHaveNoSpace(s: Server)
    ensures NoSpace(Code(s))
  {
    CodesVisibleA();
    CodesVisibleB();
    CodesVisibleC();
    CodesVisibleD();
    VisibleAsciiHasNoSpace(Code(s));
  }

  /** Because codes are distinct and free of whitespace, saving a region's
      code and loading the result selects that same region again. */
  lemma {:induction false} SaveLoadRoundTrip(ini: Ini, s: Server)
    ensures ConfiguredServer(Some(SetHint(ini, Code(s)))) == Some(s)
  {
    CodesHaveNoSpace(s);
    HintReadsBack(ini, Code(s));
    LoadsHint(SetHint(ini, Code(s)), Code(s));
    CodeSelectsServer(s);
  }

  /** A configuration whose stored hint is known selects the region with
      that code. */
  lemma LoadsHint(ini: Ini, hint: string)
    requires StoredHint(ini) == Some(hint)
    ensures ConfiguredServer(Some(ini)) == ServerWithCode(hint)
  {
  }

  /**
   * The loop of _create_widgets over the keys of SERVERS: one row per key,
   * created in declaration order, each with a ping column showing an
   * ellipsis. The rows are the table entry by entry: every region has a
   * row, Auto first and only there (and ServersDistinct: no region twice).
   */
  method CreateRows() returns (r: seq<Server>, labels: map<Server, string>)
    ensures |r| == |Servers| && forall i :: 0 <= i < |r| ==> r[i] == Servers[i]
    ensures AutoFirst(r, Auto) && forall s :: s in r
    ensures forall s :: s in labels && labels[s] == Pending
  {
    r, labels := [], map[];
    var i := 0;
    while i < |Servers|
      invariant i <= |Servers| && r == Servers[..i]
      invariant forall s :: s in r ==> s in labels && labels[s] == Pending
    {
      var name := Servers[i];
      assert Servers[..i + 1] == r + [name];
      r, labels := r + [name], labels[name := Pending];
      i := i + 1;
    }
    assert r == Servers;
    ServersListed();
    ServersAutoFirst();
  }

  /** As written, a region whose probe fails without raising becomes the best
      region as soon as every other region has answered slower than 0 ms or
      not at all: its "0 ms" beats every real answer. */
  lemma {:induction false} FailedRegionRankedBest(rows: seq<Server>, lat: Latencies<Server>, s: Server)
    requires forall r :: r in rows
    requires s != Auto
    requires forall t :: t != Auto && t != s ==> Key(lat, t) > 0
    ensures BestServer(rows, Auto, lat[s := ParseLatency(Some(PingAsWritten(Host(s), Failed)))]) == Some(s)
  {
    FailedProbeReadsAsZero(Host(s).value);
    ZeroIsBest(rows, Auto, lat, s);
  }

  /** With a failed probe read as a timeout, the failed region is never
      preferred over a region that did answer. */
  lemma {:induction false} FailedRegionNotPreferred(rows: seq<Server>, lat: Latencies<Server>, s: Server, t: Server)
    requires forall r :: r in rows
    requires s != Auto && t != Auto && t != s && Key(lat, t) < Unreachable
    ensures BestServer(rows, Auto, lat[s := ParseLatency(Some(Ping(Host(s), Measured(Failed))))]) != Some(s)
  {
    FailedProbeReadsAsZero(Host(s).value);
    SlowerNotBest(rows, Auto, lat[s := Unreachable], s, t);
  }

  /** What save_choice reports. A successful save carries the configuration
      it writes back to the file. */
  datatype SaveOutcome = InvalidPath | NoSelection | ReadFailed | Saved(ini: Ini)

  /** The application window: its rows, the latency store, the row order,
      the selection, the chosen file and the colours and texts of the rows. */
  class ServerSelect {
    /** The regions of the rows built by the window, in creation order. */
    const rows: seq<Server>
    var latencies: Latencies<Server>
    var currentOrder: seq<Server>
    var selectedServer: Option<Server>
    var autoSort: bool
    var iniFullPath: Option<string>
    /** Text of each row's ping column. */
    var pingText: map<Server, string>
    /** Colour of each row's ping column; a missing entry is the theme's default. */
    var pingColor: map<Server, Colour>
    /** Colour of each row's name; a missing entry is the theme's default. */
    var nameColor: map<Server, Colour>

    /** Every region has a row, and Auto heads the rows and appears only there. */
    ghost predicate RowsValid()
    {
      AutoFirst(rows, Auto) && forall s :: s in rows
    }

    /** The latency store holds every region, and Auto is never measured. */
    ghost predicate StoreValid()
      reads this`latencies
    {
      (forall s :: s in latencies) && latencies[Auto] == Unreachable
    }

    /** The rows on screen are a rearrangement of all rows. */
    ghost predicate OrderValid()
      reads this`currentOrder
    {
      multiset(currentOrder) == multiset(rows)
    }

    /** Every row shows a ping text. */
    ghost predicate LabelsValid()
      reads this`pingText
    {
      forall s :: s in pingText
    }

    ghost predicate Valid()
      reads this
    {
      RowsValid() && StoreValid() && OrderValid() && LabelsValid()
    }

    /** __init__: a row per region, every region at 9999, rows in declared
        order, nothing selected, no file, auto-sort on. */
    constructor ()
      ensures Valid()
      ensures forall s :: s in latencies && latencies[s] == Unreachable
      ensures currentOrder == rows
      ensures selectedServer == None && iniFullPath == None && autoSort
      ensures forall s :: s in pingText && pingText[s] == Pending
      ensures pingColor == map[] && nameColor == map[]
      ensures rows == Servers
    {
      var servers, labels := CreateRows();
      rows := servers;
      latencies := Everywhere(Unreachable);
      currentOrder := servers;
      selectedServer := None;
      autoSort := true;
      iniFullPath := None;
      pingText := labels;
      pingColor := map[];
      nameColor := map[];
    }

    /**
     * One iteration of ping_loop for region s: probe its host and store the
     * parsed latency under it, and nothing else. The returned text is what
     * the iteration hands to update_ui. A failed probe reads as a timeout
     * here (see PingAsWritten for what the program shows instead).
     */
    method ProbeTick(s: Server, reply: Reply) returns (latencyStr: string)
      requires Valid()
      modifies this`latencies
      ensures Valid()
      ensures latencyStr == Ping(Host(s), Measured(reply))
      ensures latencies == old(latencies)[s := ParseLatency(Some(latencyStr))]
      ensures latencies[s] == if Host(s).Some? && reply.Answered? then reply.ms else Unreachable
    {
      latencyStr := Ping(Host(s), Measured(reply));
      PingThenParse(Host(s), Measured(reply));
      latencies := latencies[s := ParseLatency(Some(latencyStr))];
    }

    /**
     * select_server: reset every row to a white name and the colour of its
     * latency band, then highlight the clicked row and remember it.
     */
    method SelectServer(name: Server)
      requires Valid()
      modifies this`nameColor, this`pingColor, this`selectedServer
      ensures Valid()
      ensures selectedServer == Some(name)
      ensures ShowsSelection(nameColor, pingColor, latencies, name)
    {
      var nc, pc := ResetRows(rows, latencies, nameColor, pingColor);
      nameColor := nc[name := Highlight];
      pingColor := pc[name := Highlight];
      selectedServer := Some(name);
    }

    /**
     * update_ui after a tick for `name`: refresh that row's ping column
     * (keeping the highlight of a selected row), show the best region on
     * the Auto row, and bring the row order to the target order.
     */
    method UpdateUi(name: Server, latencyStr: string) returns (repacked: bool)
      requires Valid()
      modifies this`pingText, this`pingColor, this`currentOrder
      ensures Valid()
      ensures pingText == (
        var t := old(pingText)[name := latencyStr];
        match BestServer(rows, Auto, latencies)
        case Some(b) => t[Auto := Name(b)]
        case None => t)
      ensures pingColor == (
        var c := if selectedServer != Some(name)
          then old(pingColor)[name := LatencyColor(latencies[name])] else old(pingColor);
        match BestServer(rows, Auto, latencies)
        case Some(b) => c[Auto := LatencyColor(Key(latencies, b))]
        case None => c)
      ensures currentOrder == TargetOrder(rows, Auto, latencies, autoSort)
      ensures repacked <==> old(currentOrder) != currentOrder
    {
      RefreshRow(name, latencyStr);
      ShowBest();
      repacked := Reorder();
    }

    /** The first step of update_ui: the ticked row's ping column shows the
        new text, and its band colour unless the row is selected. */
    method RefreshRow(name: Server, latencyStr: string)
      requires Valid()
      modifies this`pingText, this`pingColor
      ensures Valid()
      ensures pingText == old(pingText)[name := latencyStr]
      ensures pingColor == if selectedServer != Some(name)
        then old(pingColor)[name := LatencyColor(latencies[name])] else old(pingColor)
    {
      var latencyMs := latencies[name];
      var textColor := LatencyColor(latencyMs);
      if selectedServer != Some(name) {
        pingText := pingText[name := latencyStr];
        pingColor := pingColor[name := textColor];
      } else {
        pingText := pingText[name := latencyStr];
      }
    }

    /** The second step of update_ui: the Auto row shows the name of the
        best region, in that region's band colour. */
    method ShowBest()
      requires Valid()
      modifies this`pingText, this`pingColor
      ensures Valid()
      ensures pingText == match BestServer(rows, Auto, latencies)
        case Some(b) => old(pingText)[Auto := Name(b)]
        case None => old(pingText)
      ensures pingColor == match BestServer(rows, Auto, latencies)
        case Some(b) => old(pingColor)[Auto := LatencyColor(Key(latencies, b))]
        case None => old(pingColor)
    {
      var best := BestServer(rows, Auto, latencies);
      if best.Some? {
        pingText, pingColor := pingText[Auto := Name(best.value)], pingColor[Auto := LatencyColor(latencies[best.value])];
      }
    }

    /** The last step of update_ui: the rows take the target order, and are
        repacked only when their order changes, so a second refresh with the
        same latencies and flag repacks nothing. */
    method Reorder() returns (repacked: bool)
      requires Valid()
      modifies this`currentOrder
      ensures Valid()
      ensures currentOrder == TargetOrder(rows, Auto, latencies, autoSort)
      ensures repacked <==> old(currentOrder) != currentOrder
    {
      repacked := false;
      if autoSort {
        var newOrder := AutoSortOrder(rows, Auto, latencies);
        AutoSortPermutes(rows, Auto, latencies);
        if newOrder != currentOrder {
          currentOrder := newOrder;
          repacked := true;
        }
      } else {
        if currentOrder != rows {
          currentOrder := rows;
          repacked := true;
        }
      }
    }

    /**
     * load_current_server for a file that exists and was read as `source`
     * (None when it is missing or could not be read): select the first
     * region whose code equals the stripped DataCenterHint of [ONLINE];
     * otherwise leave the selection and the rows as they were.
     */
    method LoadCurrentServer(source: Option<Ini>)
      requires Valid()
      modifies this`nameColor, this`pingColor, this`selectedServer
      ensures Valid()
      ensures ConfiguredServer(source).None? ==>
        selectedServer == old(selectedServer) && nameColor == old(nameColor) && pingColor == old(pingColor)
      ensures ConfiguredServer(source).Some? ==>
        var s := ConfiguredServer(source).value;
        selectedServer == Some(s) && ShowsSelection(nameColor, pingColor, latencies, s)
    {
      if source.None? {
        return;
      }
      var ini := source.value;
      if OnlineSection in ini && HintKey in ini[OnlineSection] {
        var hint := Strip(ini[OnlineSection][HintKey]);
        var i := 0;
        while i < |Servers|
          invariant i <= |Servers|
          invariant FindCode(hint, i) == FindCode(hint, 0)
          invariant selectedServer == old(selectedServer)
          invariant nameColor == old(nameColor) && pingColor == old(pingColor)
        {
          if hint == Code(Servers[i]) {
            SelectServer(Servers[i]);
            return;
          }
          i := i + 1;
        }
      }
    }

    /**
     * save_choice, given whether the chosen path is an existing file and
     * the configuration read from it (None when reading raised). The
     * guards apply in the source's order: path, selection, read.
     */
    method SaveChoice(isFile: bool, read: Option<Ini>) returns (outcome: SaveOutcome)
      ensures (iniFullPath.None? || iniFullPath.value == "" || !isFile) ==> outcome == InvalidPath
      ensures (iniFullPath.Some? && iniFullPath.value != "" && isFile && selectedServer.None?) ==>
        outcome == NoSelection
      ensures (iniFullPath.Some? && iniFullPath.value != "" && isFile
               && selectedServer.Some? && read.None?) ==> outcome == ReadFailed
      ensures (iniFullPath.Some? && iniFullPath.value != "" && isFile
               && selectedServer.Some? && read.Some?) ==>
        outcome == Saved(SetHint(read.value, Code(selectedServer.value)))
    {
      if iniFullPath.None? || iniFullPath.value == "" || !isFile {
        return InvalidPath;
      }
      if selectedServer.None? {
        return NoSelection;
      }
      if read.None? {
        return ReadFailed;
      }
      var config := read.value;
      if OnlineSection !in config {
        config := config[OnlineSection := map[]];
      }
      config := config[OnlineSection := config[OnlineSection][HintKey := Code(selectedServer.value)]];
      outcome := Saved(config);
    }
  }
}
