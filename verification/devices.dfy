/** The settings page: the parser of `adb devices -l` that fills the device
    choice list, and the option domains the page declares for the monitoring
    service. */
module Devices {
  import opened Js
  import opened Text

  /** One attached device: its serial and its model label. */
  datatype Device = Device(serial: string, model: string)

  /** The field of a device line that carries the model. */
  const ModelTag := "model:"

  /** The text after `model:` of the LAST field that starts with it (the
      `forEach` overwrites earlier ones), or "" when no field does. */
  function ModelOf(parts: seq<string>): (m: string)
    ensures (forall k :: 0 <= k < |parts| ==> !StartsWith(parts[k], ModelTag)) ==> m == ""
    ensures (exists k :: 0 <= k < |parts| && StartsWith(parts[k], ModelTag)) ==>
              exists k :: 0 <= k < |parts| && StartsWith(parts[k], ModelTag) && m == parts[k][|ModelTag|..]
                          && forall j :: k < j < |parts| ==> !StartsWith(parts[j], ModelTag)
  {
    if parts == [] then ""
    else
      var n := |parts| - 1;
      if StartsWith(parts[n], ModelTag) then parts[n][|ModelTag|..]
      else
        assert forall k :: 0 <= k < n ==> parts[..n][k] == parts[k];
        ModelOf(parts[..n])
  }

  /** One line of the listing: the first white-space separated field is the
      serial, and the model comes from the `model:` field. */
  function DeviceOf(line: string): (d: Device)
    ensures d.serial == SplitWs(line)[0]
    ensures d.model == ModelOf(SplitWs(line))
  {
    var parts := SplitWs(line);
    TrimNoSpace(parts[0]);
    Device(Trim(parts[0]), ModelOf(parts))
  }

  /** A field without white space is left alone by `trim`. */
  lemma TrimNoSpace(s: string)
    requires NoSpace(s)
    ensures Trim(s) == s
  {
    TrimTrimmed(s);
  }

  /** The device of every line, in order. */
  function DevicesOf(lines: seq<string>): (ds: seq<Device>)
    ensures |ds| == |lines|
    ensures forall k :: 0 <= k < |lines| ==> ds[k] == DeviceOf(lines[k])
  {
    seq(|lines|, k requires 0 <= k < |lines| => DeviceOf(lines[k]))
  }

  /** The device list of `load`: none when the listing failed, reported a
      diagnostic, or has no line after its header; otherwise one device per
      line after the header of the trimmed output. */
  function ParseDevices(out: Exec): (r: Option<seq<Device>>)
    ensures out.ExecFailed? ==> r.None?
    ensures out.Exec? && out.stderr != "" ==> r.None?
    ensures out.Exec? && out.stderr == "" ==>
              (r.None? <==> '\n' !in Trim(out.stdout))
    ensures r.Some? ==>
              && out.Exec?
              && |r.value| == |Split(Trim(out.stdout), "\n")| - 1
              && forall k :: 0 <= k < |r.value| ==> r.value[k] == DeviceOf(Split(Trim(out.stdout), "\n")[k + 1])
  {
    match out
    case ExecFailed(_) => None
    case Exec(stdout, stderr) =>
      if stderr != "" then None
      else
        var lines := Split(Trim(stdout), "\n");
        ContainsChar(Trim(stdout), '\n');
        var devices := DevicesOf(lines[1..]);
        if |devices| > 0 then Some(devices) else None
  }

  /** The header line `adb devices -l` prints first. */
  const Header := "List of devices attached"

  /** The listing line of a device: `<serial> device model:<model>`. */
  function ListingLine(d: Device): string {
    d.serial + " device " + ModelTag + d.model
  }

  /** Devices whose serial and model hold no white space. */
  predicate Listable(ds: seq<Device>) {
    forall k :: 0 <= k < |ds| ==> ds[k].serial != [] && NoSpace(ds[k].serial) && NoSpace(ds[k].model)
  }

  /** The lines of every device, in order. */
  function ListingLines(ds: seq<Device>): (ls: seq<string>)
    ensures |ls| == |ds|
    ensures forall k :: 0 <= k < |ds| ==> ls[k] == ListingLine(ds[k])
  {
    seq(|ds|, k requires 0 <= k < |ds| => ListingLine(ds[k]))
  }

  /** The full listing: the header, then one line per device. */
  function Listing(ds: seq<Device>): string {
    Join([Header] + ListingLines(ds), "\n")
  }

  /** Parsing the listing of one or more devices gives those devices back. */
  lemma ParseListing(ds: seq<Device>)
    requires |ds| >= 1 && Listable(ds)
    ensures ParseDevices(Exec(Listing(ds), "")) == Some(ds)
  {
    var lines := ListingLines(ds);
    var text := Listing(ds);
    assert Trim(text) == text by { ListingTrimmed(ds); TrimTrimmed(text); }
    assert Split(text, "\n")[1..] == lines by {
      ListingSplits(ds);
      assert ([Header] + lines)[1..] == lines;
    }
    assert '\n' in text by {
      ListingSplits(ds);
      ContainsChar(text, '\n');
    }
    ParsedLines(text);
    DevicesOfListing(ds);
  }

  /** The listing lines of devices parse back one by one. */
  lemma DevicesOfListing(ds: seq<Device>)
    requires Listable(ds)
    ensures DevicesOf(ListingLines(ds)) == ds
  {
    var lines := ListingLines(ds);
    var parsed := DevicesOf(lines);
    forall k | 0 <= k < |ds| ensures parsed[k] == ds[k] {
      LineRoundTrip(ds[k]);
    }
  }

  /** Output with a line after its header parses to the devices of those lines. */
  lemma ParsedLines(stdout: string)
    requires '\n' in Trim(stdout)
    ensures ParseDevices(Exec(stdout, "")) == Some(DevicesOf(Split(Trim(stdout), "\n")[1..]))
  {
    ContainsChar(Trim(stdout), '\n');
  }

  lemma ListingSplits(ds: seq<Device>)
    requires Listable(ds)
    ensures Split(Listing(ds), "\n") == [Header] + ListingLines(ds)
  {
    var ls := [Header] + ListingLines(ds);
    forall k | 0 <= k < |ls| ensures '\n' !in ls[k] {
      if k > 0 { LineHasNoBreak(ds[k - 1]); }
    }
    SplitJoin(ls, '\n');
  }

  lemma LineHasNoBreak(d: Device)
    requires NoSpace(d.serial) && NoSpace(d.model)
    ensures '\n' !in ListingLine(d)
  {
    var l := ListingLine(d);
    forall i | 0 <= i < |l| ensures l[i] != '\n' {
      if i < |d.serial| {
        assert l[i] == d.serial[i];
      } else if i >= |l| - |d.model| {
        assert l[i] == d.model[i - (|l| - |d.model|)];
      }
    }
  }

  lemma ListingTrimmed(ds: seq<Device>)
    requires |ds| >= 1 && Listable(ds)
    ensures Trimmed(Listing(ds))
  {
    ListingStart(ds);
    ListingEnd(ds);
  }

  /** A listing starts with the header's first letter. */
  lemma ListingStart(ds: seq<Device>)
    ensures Listing(ds) != [] && Listing(ds)[0] == 'L'
  {
    JoinHead([Header] + ListingLines(ds), "\n");
  }

  /** A listing ends with its last line's last character, which is no blank. */
  lemma ListingEnd(ds: seq<Device>)
    requires |ds| >= 1 && Listable(ds)
    ensures Listing(ds) != [] && !IsSpace(Listing(ds)[|Listing(ds)| - 1])
  {
    var ls := [Header] + ListingLines(ds);
    var text := Listing(ds);
    var last := ListingLine(ds[|ds| - 1]);
    LineEnd(ds[|ds| - 1]);
    assert ls[|ls| - 1] == last;
    LastOfJoin(ls, "\n");
    assert text[|text| - |last|..][|last| - 1] == text[|text| - 1];
  }

  /** A listing line ends with the model's last character, or the tag's colon. */
  lemma LineEnd(d: Device)
    requires NoSpace(d.model)
    ensures var l := ListingLine(d); l != [] && !IsSpace(l[|l| - 1])
  {
    var l := ListingLine(d);
    if d.model == [] {
      assert l[|l| - 1] == ':';
    } else {
      assert l[|l| - 1] == d.model[|d.model| - 1];
    }
  }

  /** A device's listing line parses back to the device. */
  lemma LineRoundTrip(d: Device)
    requires d.serial != [] && NoSpace(d.serial) && NoSpace(d.model)
    ensures DeviceOf(ListingLine(d)) == d
  {
    var words := LineWords(d);
    SplitWsJoin(words);
    ModelOfTag(words, d.model);
  }

  /** The white-space separated fields of a device's listing line. */
  function LineWords(d: Device): (ws: seq<string>)
    requires NoSpace(d.model)
    ensures Join(ws, " ") == ListingLine(d)
    ensures |ws| == 3 && ws[0] == d.serial && ws[2] == ModelTag + d.model
    ensures d.serial != [] && NoSpace(d.serial) ==>
              forall k :: 0 <= k < |ws| ==> ws[k] != [] && NoSpace(ws[k])
  {
    var tag := ModelTag + d.model;
    TagNoSpace(d.model);
    var ws := [d.serial, "device", tag];
    assert Join(ws[2..], " ") == tag;
    assert Join(ws[1..], " ") == "device" + " " + tag;
    ws
  }

  /** The model field holds no white space when the model holds none. */
  lemma TagNoSpace(model: string)
    requires NoSpace(model)
    ensures NoSpace(ModelTag + model)
  {
    var tag := ModelTag + model;
    forall i | 0 <= i < |tag| ensures !IsSpace(tag[i]) {
      if i >= |ModelTag| { assert tag[i] == model[i - |ModelTag|]; }
    }
  }

  /** Fields ending in the model field give that field's model. */
  lemma ModelOfTag(words: seq<string>, model: string)
    requires |words| >= 1 && words[|words| - 1] == ModelTag + model
    ensures ModelOf(words) == model
  {
    var tag := ModelTag + model;
    assert tag[..|ModelTag|] == ModelTag;
    assert tag[|ModelTag|..] == model;
  }

  // ----------------------------------------------------------- choices

  /** The device select's choices, `(value, label)`: one per listed device
      with a non-empty serial, in order; no list offers none. */
  function Choices(r: Option<seq<Device>>): (cs: seq<(string, string)>)
    ensures r.None? ==> cs == []
    ensures r.Some? ==> |cs| <= |r.value|
    ensures forall k :: 0 <= k < |cs| ==> cs[k].0 != ""
  {
    match r
    case None => []
    case Some(ds) => ChoicesOf(ds)
  }

  function ChoicesOf(ds: seq<Device>): (cs: seq<(string, string)>)
    ensures |cs| <= |ds|
    ensures forall k :: 0 <= k < |cs| ==> cs[k].0 != ""
    ensures forall k :: 0 <= k < |cs| ==> Device(cs[k].0, cs[k].1) in ds
    ensures forall k :: 0 <= k < |ds| && ds[k].serial != "" ==> (ds[k].serial, ds[k].model) in cs
  {
    if ds == [] then []
    else
      var rest := ChoicesOf(ds[1..]);
      assert forall k :: 1 <= k < |ds| ==> ds[k] == ds[1..][k - 1];
      if ds[0].serial != "" then [(ds[0].serial, ds[0].model)] + rest else rest
  }

  /** Devices with serials are offered exactly, serial as value and model as label. */
  lemma {:induction false} ChoicesOfSerials(ds: seq<Device>)
    requires forall k :: 0 <= k < |ds| ==> ds[k].serial != ""
    ensures |ChoicesOf(ds)| == |ds|
    ensures forall k :: 0 <= k < |ds| ==> ChoicesOf(ds)[k] == (ds[k].serial, ds[k].model)
  {
    if ds != [] {
      ChoicesOfSerials(ds[1..]);
    }
  }

  /** A listing of attached devices offers each of them, in order. */
  lemma ListingOffersDevices(ds: seq<Device>)
    requires |ds| >= 1 && Listable(ds)
    ensures var cs := Choices(ParseDevices(Exec(Listing(ds), "")));
            |cs| == |ds| && forall k :: 0 <= k < |ds| ==> cs[k] == (ds[k].serial, ds[k].model)
  {
    ParseListing(ds);
    ChoicesOfSerials(ds);
  }

  // ---------------------------------------------------- option domains

  /** How the page lets an option be set. */
  datatype Widget =
    | Choice(values: seq<string>)   // `form.ListValue`
    | Flag                          // `form.Flag`: "0" or "1"
    | FreeText                      // `form.Value`, the interface picker

  /** One option of the `config` section, with its default and the option
      value it depends on. */
  datatype Setting = Setting(name: string, widget: Widget, default: Option<string>, dependsOn: Option<(string, string)>)

  /** The monitoring-service options the page declares. */
  const ServiceSettings: seq<Setting> := [
    Setting("enabled", Flag, Some("0"), None),
    Setting("host", FreeText, None, None),
    Setting("failed_count", Choice(["1", "2", "3", "4", "5"]), Some("1"), None),
    Setting("wait_time", Choice(["1", "2", "3"]), Some("1"), None),
    Setting("interface", FreeText, None, None),
    Setting("restart", Flag, Some("0"), None),
    Setting("tunnel_service", Choice(["", "openclash", "passwall", "neko", "v2raya"]), None, Some(("restart", "1")))
  ]

  /** A value the widget can produce. */
  predicate Accepts(w: Widget, v: string) {
    match w
    case Choice(vs) => v in vs
    case Flag => v == "0" || v == "1"
    case FreeText => true
  }

  /** The value an option has: the stored one, else its default. */
  function Effective(cfg: map<string, string>, s: Setting): Option<string> {
    if s.name in cfg then Some(cfg[s.name]) else s.default
  }

  /** Whether the option is shown (and so saved) for the current values. */
  predicate Applies(cfg: map<string, string>, s: Setting) {
    match s.dependsOn
    case None => true
    case Some(dep) => Effective(cfg, SettingNamed(dep.0)) == Some(dep.1)
  }

  /** The declared option with a name; an undeclared name has no default. */
  function SettingNamed(name: string): (s: Setting)
    ensures s.name == name
    ensures s in ServiceSettings || (s.default.None? && s.dependsOn.None?)
  {
    if name == "enabled" then ServiceSettings[0]
    else if name == "host" then ServiceSettings[1]
    else if name == "failed_count" then ServiceSettings[2]
    else if name == "wait_time" then ServiceSettings[3]
    else if name == "interface" then ServiceSettings[4]
    else if name == "restart" then ServiceSettings[5]
    else if name == "tunnel_service" then ServiceSettings[6]
    else Setting(name, FreeText, None, None)
  }

  /** The seven declared options have distinct names, and looking one up by
      its name finds its declaration. */
  lemma SettingsDeclared()
    ensures |ServiceSettings| == 7
    ensures forall i, j :: 0 <= i < j < |ServiceSettings| ==> ServiceSettings[i].name != ServiceSettings[j].name
    ensures forall i :: 0 <= i < |ServiceSettings| ==> SettingNamed(ServiceSettings[i].name) == ServiceSettings[i]
  {
  }

  /** Every option that applies has a value its widget can produce, if any. */
  predicate Valid(cfg: map<string, string>) {
    forall s :: s in ServiceSettings && Applies(cfg, s) ==>
      match Effective(cfg, s) case None => true case Some(v) => Accepts(s.widget, v)
  }

  /** The defaults alone are a valid configuration, and the tunnelling tool
      does not apply to it because restarting defaults to off. */
  lemma DefaultsValid()
    ensures Valid(map[])
    ensures !Applies(map[], ServiceSettings[6])
  {
  }

  /** The tunnelling tool applies exactly when the restart flag is on. */
  lemma TunnelAppliesIff(cfg: map<string, string>)
    ensures Applies(cfg, ServiceSettings[6]) <==> "restart" in cfg && cfg["restart"] == "1"
  {
  }

  /** The ping-attempt and wait-time domains, with their defaults inside them. */
  lemma Domains(cfg: map<string, string>)
    requires Valid(cfg)
    ensures Effective(cfg, ServiceSettings[2]).value in {"1", "2", "3", "4", "5"}
    ensures Effective(cfg, ServiceSettings[3]).value in {"1", "2", "3"}
    ensures Effective(cfg, ServiceSettings[0]).value in {"0", "1"}
  {
    ValidAt(cfg, 0);
    ValidAt(cfg, 2);
    ValidAt(cfg, 3);
  }

  /** A valid configuration gives an unconditional option an accepted value. */
  lemma ValidAt(cfg: map<string, string>, i: nat)
    requires Valid(cfg) && i < |ServiceSettings| && ServiceSettings[i].dependsOn.None?
    ensures var s := ServiceSettings[i];
            Effective(cfg, s).Some? ==> Accepts(s.widget, Effective(cfg, s).value)
  {
    assert ServiceSettings[i] in ServiceSettings;
  }
}
