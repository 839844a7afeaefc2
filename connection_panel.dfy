/**
 * `ConnectionPanel` (app/gui/connection_panel.py): the port list with its
 * display-text-to-device map, the choice of the selected port, the
 * translation of the panel's fields into connection settings through the
 * tables of app/config.py, and the connect button.
 */
module ConnectionPanel {
  import opened Results
  import opened PyStr
  import opened Config
  import Serial

  /** The separator between device and description in a port's display text. */
  const Sep: string := " \U{2014} "

  const Placeholder: string := "(no ports found)"

  /** A port as `list_serial_ports` reports it: device name and description. */
  type Port = (string, string)

  /** The text shown for a port: `"dev — desc"`, or just `dev` when the description repeats it. */
  function DisplayOf(p: Port): (d: string)
    ensures d == [] ==> p.0 == []
  {
    if p.1 != p.0 then p.0 + Sep + p.1 else p.0
  }

  /** The display texts of `ports[..n]`, in order. */
  function Displays(ports: seq<Port>, n: nat): (ds: seq<string>)
    requires n <= |ports|
    ensures |ds| == n && forall k :: 0 <= k < n ==> ds[k] == DisplayOf(ports[k])
  {
    if n == 0 then [] else Displays(ports, n - 1) + [DisplayOf(ports[n - 1])]
  }

  /** `_port_map` after the first `n` ports: each display text to its device, later ports winning. */
  function PortMap(ports: seq<Port>, n: nat): (m: map<string, string>)
    requires n <= |ports|
    ensures forall d :: d in m ==> exists k :: 0 <= k < n && DisplayOf(ports[k]) == d && m[d] == ports[k].0
  {
    if n == 0 then map[] else PortMap(ports, n - 1)[DisplayOf(ports[n - 1]) := ports[n - 1].0]
  }

  /** Port `k` is the last of `ports[..n]` shown under its display text. */
  predicate LastWithText(ports: seq<Port>, n: nat, k: nat)
    requires n <= |ports|
  {
    k < n && forall j :: k < j < n ==> DisplayOf(ports[j]) != DisplayOf(ports[k])
  }

  /** Every port's display text is a key of the map, and the last port shown under a text owns it. */
  lemma {:induction false} PortMapHasPort(ports: seq<Port>, n: nat, k: nat)
    requires k < n <= |ports|
    ensures DisplayOf(ports[k]) in PortMap(ports, n)
    ensures LastWithText(ports, n, k) ==> PortMap(ports, n)[DisplayOf(ports[k])] == ports[k].0
    decreases n
  {
    if k < n - 1 {
      PortMapHasPort(ports, n - 1, k);
      if LastWithText(ports, n, k) {
        assert LastWithText(ports, n - 1, k);
        assert DisplayOf(ports[n - 1]) != DisplayOf(ports[k]);
      }
    }
  }

  /** When no two ports share a display text, the map sends every port's text back to its own device. */
  lemma DistinctDisplaysMapBack(ports: seq<Port>, k: nat)
    requires k < |ports|
    requires forall a, b :: 0 <= a < b < |ports| ==> DisplayOf(ports[a]) != DisplayOf(ports[b])
    ensures DisplayOf(ports[k]) in PortMap(ports, |ports|)
    ensures PortMap(ports, |ports|)[DisplayOf(ports[k])] == ports[k].0
  {
    PortMapHasPort(ports, |ports|, k);
  }

  /**
   * `next((d for d, v in port_map.items() if v == saved), None)`: the dict
   * lists its keys in the order they were first inserted, so this is the
   * first display text in the list whose device is `saved`.
   */
  function FirstMapped(ds: seq<string>, m: map<string, string>, saved: string): (r: Option<string>)
    ensures r.Some? ==> r.value in ds && r.value in m && m[r.value] == saved
    ensures r.None? <==> forall k :: 0 <= k < |ds| && ds[k] in m ==> m[ds[k]] != saved
  {
    if ds == [] then None
    else if ds[0] in m && m[ds[0]] == saved then Some(ds[0])
    else
      var r := FirstMapped(ds[1..], m, saved);
      assert forall k :: 1 <= k < |ds| ==> ds[k] == ds[1..][k - 1];
      r
  }

  /** The port shown after `_refresh_ports`: the saved port's text when it is listed, else the first. */
  function Selected(ports: seq<Port>, saved: string): (shown: string)
    ensures ports == [] ==> shown == Placeholder
    ensures ports != [] ==> shown in Displays(ports, |ports|)
  {
    if ports == [] then Placeholder
    else
      var ds := Displays(ports, |ports|);
      match FirstMapped(ds, PortMap(ports, |ports|), saved)
      case Some(d) => if d != [] then d else ds[0]
      case None => ds[0]
  }

  /**
   * With no ports the placeholder is shown. Otherwise a listed port is
   * shown: one whose device is the saved port when some listed text maps
   * to it, and the first port when none does.
   */
  lemma SelectionPrefersSavedPort(ports: seq<Port>, saved: string)
    ensures ports == [] ==> Selected(ports, saved) == Placeholder
    ensures ports != [] ==> Selected(ports, saved) in Displays(ports, |ports|)
    ensures var m := PortMap(ports, |ports|); var ds := Displays(ports, |ports|);
      ports != [] && saved != [] && (exists k :: 0 <= k < |ds| && ds[k] in m && m[ds[k]] == saved) ==>
        Selected(ports, saved) in m && m[Selected(ports, saved)] == saved
    ensures var m := PortMap(ports, |ports|); var ds := Displays(ports, |ports|);
      ports != [] && (forall k :: 0 <= k < |ds| && ds[k] in m ==> m[ds[k]] != saved) ==>
        Selected(ports, saved) == ds[0]
  {
    if ports != [] {
      var m := PortMap(ports, |ports|);
      var ds := Displays(ports, |ports|);
      var r := FirstMapped(ds, m, saved);
      if r.Some? && saved != [] {
        var j :| 0 <= j < |ports| && DisplayOf(ports[j]) == r.value && m[r.value] == ports[j].0;
        assert r.value != [];
      }
    }
  }

  /** With distinct display texts, a listed saved device is always the one selected. */
  lemma SavedDeviceIsSelected(ports: seq<Port>, saved: string, k: nat)
    requires k < |ports| && ports[k].0 == saved && saved != []
    requires forall a, b :: 0 <= a < b < |ports| ==> DisplayOf(ports[a]) != DisplayOf(ports[b])
    ensures Selected(ports, saved) in PortMap(ports, |ports|)
    ensures PortMap(ports, |ports|)[Selected(ports, saved)] == saved
  {
    DistinctDisplaysMapBack(ports, k);
    var ds := Displays(ports, |ports|);
    assert ds[k] == DisplayOf(ports[k]);
    SelectionPrefersSavedPort(ports, saved);
  }

  /** `display.split(" — ")[0].strip()`: the device read back from a display text not in the map. */
  function DeviceFromText(display: string): (dev: string)
    ensures Strip(dev) == dev
  {
    StripIsIdempotent(Split(display, Sep)[0]);
    Strip(Split(display, Sep)[0])
  }

  /** That text is the part before the first separator, or the whole text when there is none. */
  lemma DeviceFromTextIsBeforeSeparator(display: string)
    ensures var i := Find(display, Sep);
      DeviceFromText(display) == Strip(if i == -1 then display else display[..i])
    ensures Find(display, Sep) == -1 <==> !Contains(display, Sep)
  {
    FindIffContains(display, Sep);
  }

  /**
   * A device name without an em dash and without surrounding whitespace is
   * read back from its display text, even when that text is not in the map.
   */
  lemma DeviceFromDisplayText(p: Port)
    requires forall k :: 0 <= k < |p.0| ==> p.0[k] != '\U{2014}'
    requires Strip(p.0) == p.0
    ensures DeviceFromText(DisplayOf(p)) == p.0
  {
    var dev := p.0;
    var s := DisplayOf(p);
    if p.1 == dev {
      assert s == dev;
      forall i | 0 <= i <= |s| - |Sep| ensures !OccursAt(s, Sep, i) {
        assert s[i..i + |Sep|][1] == dev[i + 1] != Sep[1];
      }
      FindIffContains(s, Sep);
    } else {
      forall i | 0 <= i < |dev| ensures !OccursAt(s, Sep, i) {
        if i + 1 < |dev| {
          assert s[i + 1] == dev[i + 1];
        } else {
          assert s[i + 1] == ' ';
        }
      }
      assert s[|dev|..|dev| + |Sep|] == Sep;
      FindIsFirst(s, Sep, |dev|);
      assert s[..|dev|] == dev;
    }
  }

  /** The button dispatch: what a click on Connect/Disconnect calls. */
  datatype Click = CallDisconnect | CallConnect(settings: Serial.PortSettings) | Raised(error: string)

  class ConnectionPanel {
    /** `_port_map`: display text to device. */
    var portMap: map<string, string>
    /** The texts offered by the port combobox. */
    var portValues: seq<string>
    var portText: string
    var baudText: string
    var parityText: string
    var dataBitsText: string
    var stopBitsText: string
    var lineEndingText: string
    var connected: bool
    /** Whether the Connect button is enabled. */
    var connectEnabled: bool

    /** The panel as built from the saved settings, before its first refresh. */
    constructor (savedBaud: string, savedDataBits: string, savedLineEnding: string)
      ensures portMap == map[] && portValues == [] && portText == [] && !connected
      ensures baudText == savedBaud && dataBitsText == savedDataBits && lineEndingText == savedLineEnding
      ensures parityText == [] && stopBitsText == [] && !connectEnabled
    {
      portMap := map[];
      portValues := [];
      portText := "";
      baudText := savedBaud;
      parityText := "";
      dataBitsText := savedDataBits;
      stopBitsText := "";
      lineEndingText := savedLineEnding;
      connected := false;
      connectEnabled := false;
    }

    /** `_restore_from_config`: show the saved parity and stop-bit codes by their names. */
    method RestoreFromConfig(savedParity: string, savedStopBits: real)
      modifies this`parityText, this`stopBitsText
      ensures parityText == Lookup(Inverse(Parities), savedParity, "None")
      ensures stopBitsText == Lookup(Inverse(StopBits), savedStopBits, "1")
    {
      parityText := Lookup(Inverse(Parities), savedParity, "None");
      stopBitsText := Lookup(Inverse(StopBits), savedStopBits, "1");
    }

    /** `_refresh_ports`, given the ports the system lists and the saved port. */
    method RefreshPorts(ports: seq<Port>, saved: string)
      modifies this`portMap, this`portValues, this`portText, this`connectEnabled
      ensures portMap == PortMap(ports, |ports|)
      ensures portValues == if ports == [] then [Placeholder] else Displays(ports, |ports|)
      ensures portText == Selected(ports, saved)
      ensures connectEnabled <==> ports != []
    {
      portMap := map[];
      if ports == [] {
        portValues := [Placeholder];
        portText := Placeholder;
        connectEnabled := false;
        return;
      }
      var displays: seq<string> := [];
      for i := 0 to |ports|
        invariant portMap == PortMap(ports, i)
        invariant displays == Displays(ports, i)
      {
        var display := DisplayOf(ports[i]);
        portMap := portMap[display := ports[i].0];
        displays := displays + [display];
      }
      portValues := displays;
      var found := FirstMapped(displays, portMap, saved);
      if found.Some? && found.value != [] {
        portText := found.value;
      } else {
        portText := displays[0];
      }
      connectEnabled := true;
    }

    /** `get_params`; `int()` of a non-numeric baud or data-bits text raises. */
    function Params(): (r: Result<Serial.PortSettings>)
      reads this
      ensures r.Ok? ==> r.value.parity == Lookup(Parities, parityText, "N")
      ensures r.Ok? ==> r.value.stopBits == Lookup(StopBits, stopBitsText, 1.0)
      ensures r.Ok? ==> r.value.device == if portText in portMap then portMap[portText] else DeviceFromText(portText)
      ensures r.Ok? <==> ParseInt(baudText).Some? && ParseInt(dataBitsText).Some?
      ensures r.Ok? ==> r.value.baud == ParseInt(baudText).value && r.value.dataBits == ParseInt(dataBitsText).value
    {
      var port := if portText in portMap then portMap[portText] else DeviceFromText(portText);
      match (ParseInt(baudText), ParseInt(dataBitsText))
      case (Some(baud), Some(dataBits)) =>
        Ok(Serial.PortSettings(port, baud, Lookup(Parities, parityText, "N"), dataBits,
                               Lookup(StopBits, stopBitsText, 1.0)))
      case _ => Err("invalid literal for int()")
    }

    /** `get_line_ending`. */
    function LineEnding(): (le: seq<byte>)
      reads this
      ensures (forall k :: 0 <= k < |LineEndings| ==> LineEndings[k].0 != lineEndingText) ==> le == [13, 10]
      ensures forall k :: 0 <= k < |LineEndings| && LineEndings[k].0 == lineEndingText ==> le == LineEndings[k].1
    {
      TablesAreOneToOne();
      assert forall k :: 0 <= k < |LineEndings| && LineEndings[k].0 == lineEndingText ==>
               Lookup(LineEndings, lineEndingText, [13, 10]) == LineEndings[k].1 by {
        forall k | 0 <= k < |LineEndings| && LineEndings[k].0 == lineEndingText {
          LookupEntry(LineEndings, k, [13, 10]);
        }
      }
      Lookup(LineEndings, lineEndingText, [13, 10])
    }

    /** `_on_connect_click`, with both callbacks installed (as the main window does). */
    function ConnectClick(): (c: Click)
      reads this
      ensures connected <==> c == CallDisconnect
      ensures !connected ==> (c.CallConnect? <==> Params().Ok?)
    {
      if connected then CallDisconnect
      else match Params()
        case Ok(settings) => CallConnect(settings)
        case Err(e) => Raised(e)
    }

    /** `set_connected`. */
    method SetConnected(c: bool)
      modifies this`connected
      ensures connected == c
    {
      connected := c;
    }
  }

  /**
   * After a refresh that lists distinct display texts, the device handed to
   * `connect` for the selected port is the device listed under it.
   */
  lemma RefreshedPortConnects(ports: seq<Port>, saved: string, k: nat)
    requires k < |ports|
    requires forall a, b :: 0 <= a < b < |ports| ==> DisplayOf(ports[a]) != DisplayOf(ports[b])
    ensures var ds := Displays(ports, |ports|);
      ds[k] in PortMap(ports, |ports|) && PortMap(ports, |ports|)[ds[k]] == ports[k].0
  {
    DistinctDisplaysMapBack(ports, k);
  }

  /** Restoring the saved parity and stop bits, then reading them back, gives the saved codes. */
  lemma RestoreThenParams(pk: nat, sk: nat)
    requires pk < |Parities| && sk < |StopBits|
    ensures Lookup(Parities, Lookup(Inverse(Parities), Parities[pk].1, "None"), "N") == Parities[pk].1
    ensures Lookup(StopBits, Lookup(Inverse(StopBits), StopBits[sk].1, "1"), 1.0) == StopBits[sk].1
  {
    TablesAreOneToOne();
    LookupEntry(Inverse(Parities), pk, "None");
    LookupEntry(Parities, pk, "N");
    LookupEntry(Inverse(StopBits), sk, "1");
    LookupEntry(StopBits, sk, 1.0);
  }
}
