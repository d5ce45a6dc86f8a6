/** The network view's `load`: four parsers over the output of `getprop`,
    `settings list global`, the IMEI service call and `ip route`, merged into
    one device record; and the SIM tables' display selectors of `render`. */
module Network {
  import opened Js
  import opened Text

  /** getprop keys and the record fields they fill, in iteration order. */
  const PropertyFields: seq<(string, string)> := [
    ("gsm.operator.alpha", "operator"),
    ("gsm.network.type", "network"),
    ("gsm.version.ril-impl", "driver"),
    ("gsm.operator.isroaming", "roaming"),
    ("gsm.sim.operator.numeric", "mcc"),
    ("ro.build.version.sdk", "sdk")
  ]

  /** Global settings keys and the record fields they fill, in iteration order. */
  const SettingFields: seq<(string, string)> := [
    ("airplane_mode_on", "airplane"),
    ("mobile_data1", "sim1"),
    ("mobile_data2", "sim2")
  ]

  /** Separator between a getprop key and its bracketed value. */
  const PropSeparator := "]: ["

  /** The record fields a table fills. */
  function FieldsOf(table: seq<(string, string)>): set<string> {
    set j | 0 <= j < |table| :: table[j].1
  }

  /** What one output line contributes to a record. */
  datatype LineHit = Miss | Hit(field: string, value: Val) | Throws(what: string)

  // ------------------------------------------------------ line scanning

  /** The first table entry whose marker occurs in the line: the inner
      `for (property in properties)` loop with its `break`. */
  function FirstKey(line: string, table: seq<(string, string)>, marker: string -> string): (r: Option<nat>)
    ensures r.Some? ==> r.value < |table| && Contains(line, marker(table[r.value].0))
    ensures r.Some? ==> forall j :: 0 <= j < r.value ==> !Contains(line, marker(table[j].0))
    ensures r.None? ==> forall j :: 0 <= j < |table| ==> !Contains(line, marker(table[j].0))
  {
    if table == [] then None
    else if Contains(line, marker(table[0].0)) then Some(0)
    else match FirstKey(line, table[1..], marker)
      case None => None
      case Some(i) => Some(i + 1)
  }

  /** The key the loop breaks on is the first one whose marker occurs. */
  lemma {:induction false} FirstKeyAt(line: string, table: seq<(string, string)>, marker: string -> string, i: nat)
    requires i < |table| && Contains(line, marker(table[i].0))
    requires forall j :: 0 <= j < i ==> !Contains(line, marker(table[j].0))
    ensures FirstKey(line, table, marker) == Some(i)
  {
    if i > 0 {
      assert forall j :: 0 <= j < i - 1 ==> table[1..][j] == table[j + 1];
      FirstKeyAt(line, table[1..], marker, i - 1);
    }
  }

  /** The outer loop over the output lines: every hit is stored, a later hit
      on the same field overwriting an earlier one. `None` when some line
      throws, which aborts the whole parser. */
  function ScanLines(lines: seq<string>, hit: string -> LineHit): (r: Option<Record>)
    ensures r.None? <==> exists i :: 0 <= i < |lines| && hit(lines[i]).Throws?
    ensures r.Some? ==> forall k :: k in r.value <==>
              exists i :: 0 <= i < |lines| && hit(lines[i]).Hit? && hit(lines[i]).field == k
  {
    if lines == [] then Some(map[])
    else
      var init := lines[..|lines| - 1];
      var last := lines[|lines| - 1];
      assert forall i :: 0 <= i < |init| ==> init[i] == lines[i];
      match ScanLines(init, hit)
      case None => None
      case Some(acc) =>
        match hit(last)
        case Throws(_) => None
        case Miss => Some(acc)
        case Hit(f, v) => Some(acc[f := v])
  }

  /** The fields some line hits. */
  function HitFields(lines: seq<string>, hit: string -> LineHit): set<string> {
    set i | 0 <= i < |lines| && hit(lines[i]).Hit? :: hit(lines[i]).field
  }

  /** A completed scan fills exactly the fields some line hits: fields no
      line names stay absent. */
  lemma ScanKeysExact(lines: seq<string>, hit: string -> LineHit)
    ensures ScanLines(lines, hit).Some? ==> ScanLines(lines, hit).value.Keys == HitFields(lines, hit)
  {
    if ScanLines(lines, hit).Some? {
      var r := ScanLines(lines, hit).value;
      forall k | k in HitFields(lines, hit) ensures k in r {
        var i :| 0 <= i < |lines| && hit(lines[i]).Hit? && hit(lines[i]).field == k;
      }
    }
  }

  /** A field holds the value of the last line that hit it. */
  lemma {:induction false} ScanLastHit(lines: seq<string>, hit: string -> LineHit, i: nat)
    requires i < |lines| && hit(lines[i]).Hit?
    requires forall j :: i < j < |lines| ==> !(hit(lines[j]).Hit? && hit(lines[j]).field == hit(lines[i]).field)
    requires ScanLines(lines, hit).Some?
    ensures hit(lines[i]).field in ScanLines(lines, hit).value
    ensures ScanLines(lines, hit).value[hit(lines[i]).field] == hit(lines[i]).value
  {
    var init := lines[..|lines| - 1];
    if i < |lines| - 1 {
      assert forall j :: 0 <= j < |init| ==> init[j] == lines[j];
      ScanLastHit(init, hit, i);
    }
  }

  /** Every piece trimmed: `.map(item => item.trim())`. */
  function TrimAll(xs: seq<string>): (r: seq<string>)
    ensures |r| == |xs|
    ensures forall k :: 0 <= k < |xs| ==> r[k] == Trim(xs[k])
  {
    seq(|xs|, k requires 0 <= k < |xs| => Trim(xs[k]))
  }

  lemma TrimAllTrimmed(xs: seq<string>)
    requires forall k :: 0 <= k < |xs| ==> Trimmed(xs[k])
    ensures TrimAll(xs) == xs
  {
    forall k | 0 <= k < |xs| ensures Trim(xs[k]) == xs[k] { TrimTrimmed(xs[k]); }
  }

  /** Lines can only fill the fields their hits name. */
  lemma {:induction false} ScanKeysWithin(lines: seq<string>, hit: string -> LineHit, fields: set<string>)
    requires forall line :: hit(line).Hit? ==> hit(line).field in fields
    ensures ScanLines(lines, hit).Some? ==> ScanLines(lines, hit).value.Keys <= fields
  {
    if lines != [] { ScanKeysWithin(lines[..|lines| - 1], hit, fields); }
  }

  /** The stored value: a comma-bearing text becomes its trimmed pieces. */
  function CommaValue(v: string): (r: Val)
    ensures ',' !in v ==> r == Str(v)
    ensures ',' in v ==> r.List? && |r.items| >= 2
    ensures ',' in v ==> forall k :: 0 <= k < |r.items| ==> Trimmed(r.items[k]) && ',' !in r.items[k]
  {
    ContainsChar(v, ',');
    if Contains(v, ",") then
      var pieces := Split(v, ",");
      SplitPiecesLackSep(v, ',');
      assert forall k :: 0 <= k < |pieces| ==> ',' !in Trim(pieces[k]) by {
        forall k | 0 <= k < |pieces| ensures ',' !in Trim(pieces[k]) { TrimLacks(pieces[k], ','); }
      }
      List(TrimAll(pieces))
    else Str(v)
  }

  /** Dual-SIM values: comma-joined trimmed parts come back as the list of parts. */
  lemma CommaValueJoin(xs: seq<string>)
    requires |xs| >= 2
    requires forall k :: 0 <= k < |xs| ==> Trimmed(xs[k]) && ',' !in xs[k]
    ensures CommaValue(Join(xs, ",")) == List(xs)
  {
    var v := Join(xs, ",");
    SplitJoin(xs, ',');
    assert ',' in v by {
      assert v == xs[0] + "," + Join(xs[1..], ",");
      assert v[|xs[0]|] == ',';
    }
    TrimAllTrimmed(xs);
  }

  // ------------------------------------------------------------- getprop

  /** `substring(0, length - 1)`: the text without its last character. */
  function DropLast(s: string): (r: string)
    ensures s != [] ==> r + [s[|s| - 1]] == s
    ensures s == [] ==> r == []
  {
    if s == [] then [] else s[..|s| - 1]
  }

  /** A getprop line: the first known `[key]` on it names the field; the value
      is the second `]: [`-separated piece without its last character. A line
      naming a key but lacking the separator reads `parts[1]` as undefined. */
  function PropertyHit(line: string): (h: LineHit)
    ensures h.Hit? ==> h.field in FieldsOf(PropertyFields)
    ensures h.Throws? ==> !Contains(line, PropSeparator)
  {
    match FirstKey(line, PropertyFields, k => "[" + k + "]")
    case None => Miss
    case Some(i) =>
      var parts := Split(line, PropSeparator);
      if |parts| < 2 then Throws("parts[1] is undefined")
      else Hit(PropertyFields[i].1, CommaValue(DropLast(parts[1])))
  }

  /** The canonical line `[key]: [value]` stores `value` under the key's field. */
  lemma PropertyLine(i: nat, value: string)
    requires i < |PropertyFields|
    requires ']' !in value
    requires forall j :: 0 <= j < i ==>
      !Contains("[" + PropertyFields[i].0 + "]: [" + value + "]", "[" + PropertyFields[j].0 + "]")
    ensures PropertyHit("[" + PropertyFields[i].0 + "]: [" + value + "]") == Hit(PropertyFields[i].1, CommaValue(value))
  {
    var key := PropertyFields[i].0;
    var line := "[" + key + "]: [" + value + "]";
    PropertyKeyPlain(i);
    var marker := "[" + key + "]";
    assert Contains(line, marker) by {
      assert OccursAt(line, marker, 0) by { assert line[..|marker|] == marker; }
      ContainsIff(line, marker);
    }
    FirstKeyAt(line, PropertyFields, k => "[" + k + "]", i);
    PropertyLineSplit(key, value);
    assert DropLast(value + "]") == value;
  }

  /** No getprop key contains a closing bracket. */
  lemma PropertyKeyPlain(i: nat)
    requires i < |PropertyFields|
    ensures ']' !in PropertyFields[i].0
  {
  }

  /** The canonical line splits at its one separator. */
  lemma PropertyLineSplit(key: string, value: string)
    requires ']' !in key && ']' !in value
    ensures Split("[" + key + "]: [" + value + "]", PropSeparator) == ["[" + key, value + "]"]
  {
    var head := "[" + key;
    var rest := value + "]";
    assert ']' !in head;
    assert IndexOf(rest, PropSeparator) == None by {
      IndexOfSkip(value, "]", PropSeparator);
      assert IndexOf("]", PropSeparator) == None;
    }
    SplitOnce(head, PropSeparator, rest);
    assert head + PropSeparator + rest == "[" + key + "]: [" + value + "]";
  }

  /** Records of the getprop parser. A non-empty stderr yields only the
      `device-section` diagnostic. */
  function ParseProperties(out: Exec): (r: Record)
    ensures out.ExecFailed? ==> r == ErrorRecord(Rejected(out.reason))
    ensures out.Exec? && out.stderr != "" ==> r == map["device-section" := Str(out.stderr)]
    ensures out.Exec? && out.stderr == "" && "error" !in r ==>
              r.Keys <= FieldsOf(PropertyFields)
    ensures out.Exec? && out.stderr == "" && "error" !in r ==>
              r.Keys == HitFields(Split(out.stdout, "\n"), PropertyHit)
  {
    match out
    case ExecFailed(e) => ErrorRecord(Rejected(e))
    case Exec(stdout, stderr) =>
      if stderr != "" then map["device-section" := Str(stderr)]
      else
        var lines := Split(stdout, "\n");
        match ScanLines(lines, PropertyHit)
        case None => ErrorRecord(TypeError("parts[1] is undefined"))
        case Some(info) =>
          ScanKeysExact(lines, PropertyHit);
          PropertyKeys(lines);
          ErrorIsNoField();
          info
  }

  /** getprop lines only fill getprop fields. */
  lemma PropertyKeys(lines: seq<string>)
    ensures ScanLines(lines, PropertyHit).Some? ==>
              ScanLines(lines, PropertyHit).value.Keys <= FieldsOf(PropertyFields)
  {
    ScanKeysWithin(lines, PropertyHit, FieldsOf(PropertyFields));
  }

  /** No table fills `error`, so a parsed record is told apart from a failed one. */
  lemma ErrorIsNoField()
    ensures "error" !in FieldsOf(PropertyFields) && "error" !in FieldsOf(SettingFields)
  {
  }

  /** Some line names a known key but has no `]: [` separator. */
  predicate HasMalformedLine(lines: seq<string>) {
    exists i :: 0 <= i < |lines| && PropertyHit(lines[i]).Throws?
  }

  /** The getprop parser fails as a whole exactly when some line names a known
      key without the `]: [` separator. */
  lemma PropertiesError(stdout: string)
    ensures "error" in ParseProperties(Exec(stdout, "")) <==> HasMalformedLine(Split(stdout, "\n"))
  {
    var lines := Split(stdout, "\n");
    var sc := ScanLines(lines, PropertyHit);
    var r := ParseProperties(Exec(stdout, ""));
    if HasMalformedLine(lines) {
      var i :| 0 <= i < |lines| && PropertyHit(lines[i]).Throws?;
      assert sc.None?;
      assert r == ErrorRecord(TypeError("parts[1] is undefined"));
    } else {
      assert sc.Some?;
      assert r == sc.value;
      PropertyKeys(lines);
      ErrorIsNoField();
    }
  }

  // ------------------------------------------------------------ settings

  /** `0` and `1` read as the boolean-like strings `false` and `true`. */
  function FlagText(v: string): (r: string)
    ensures v == "0" ==> r == "false"
    ensures v == "1" ==> r == "true"
    ensures v != "0" && v != "1" ==> r == v
  {
    if v == "0" then "false" else if v == "1" then "true" else v
  }

  /** A settings line: the first known `key=` on it names the field; the value
      is the text between its first and second `=`. */
  function SettingHit(line: string): (h: LineHit)
    ensures !h.Throws?
    ensures h.Hit? ==> h.field in FieldsOf(SettingFields)
  {
    match FirstKey(line, SettingFields, k => k + "=")
    case None => Miss
    case Some(i) =>
      var parts := Split(line, "=");
      assert |parts| >= 2 by {
        var marker := SettingFields[i].0 + "=";
        ContainsPart(line, marker, |marker| - 1);
      }
      Hit(SettingFields[i].1, CommaValue(FlagText(parts[1])))
  }

  /** The canonical line `key=value` stores the normalised value. */
  lemma SettingLine(i: nat, value: string)
    requires i < |SettingFields|
    requires '=' !in value
    requires forall j :: 0 <= j < i ==> !Contains(SettingFields[i].0 + "=" + value, SettingFields[j].0 + "=")
    ensures SettingHit(SettingFields[i].0 + "=" + value) == Hit(SettingFields[i].1, CommaValue(FlagText(value)))
  {
    var key := SettingFields[i].0;
    var line := key + "=" + value;
    assert '=' !in key;
    var marker := key + "=";
    assert Contains(line, marker) by {
      assert OccursAt(line, marker, 0) by { assert line[..|marker|] == marker; }
      ContainsIff(line, marker);
    }
    FirstKeyAt(line, SettingFields, k => k + "=", i);
    assert Join([key, value], "=") == line;
    SplitJoin([key, value], '=');
  }

  /** Records of the settings parser. */
  function ParseSettings(out: Exec): (r: Record)
    ensures out.ExecFailed? ==> r == ErrorRecord(Rejected(out.reason))
    ensures out.Exec? && out.stderr != "" ==> r == map["setting-section" := Str(out.stderr)]
    ensures out.Exec? && out.stderr == "" ==> r.Keys <= FieldsOf(SettingFields)
    ensures out.Exec? && out.stderr == "" ==>
              r.Keys == HitFields(Split(out.stdout, "\n"), SettingHit)
  {
    match out
    case ExecFailed(e) => ErrorRecord(Rejected(e))
    case Exec(stdout, stderr) =>
      if stderr != "" then map["setting-section" := Str(stderr)]
      else
        var lines := Split(stdout, "\n");
        var scanned := ScanLines(lines, SettingHit);
        assert scanned.Some?;
        assert scanned.value.Keys <= FieldsOf(SettingFields) by {
          ScanKeysWithin(lines, SettingHit, FieldsOf(SettingFields));
        }
        ScanKeysExact(lines, SettingHit);
        scanned.value
  }

  // ---------------------------------------------------------------- IMEI

  /** The inner texts of the matches of `/'([^']+)'/g`, left to right. An empty
      pair `''` or an unclosed quote does not match, and the scan resumes one
      character later, so the second quote of `''` may open a match. */
  function QuotedTokens(s: string): (ts: seq<string>)
    ensures forall k :: 0 <= k < |ts| ==> ts[k] != [] && '\'' !in ts[k]
    ensures '\'' !in s ==> ts == []
    decreases |s|
  {
    if s == [] then []
    else if s[0] != '\'' then QuotedTokens(s[1..])
    else
      PrefixLacksChar(s[1..], '\'');
      match IndexOf(s[1..], "'")
      case Some(j) =>
        if j > 0 then
          assert s[1..j + 1] == s[1..][..j];
          [s[1..j + 1]] + QuotedTokens(s[j + 2..])
        else QuotedTokens(s[1..])
      case None => QuotedTokens(s[1..])
  }

  /** Characters the IMEI reconstruction deletes: `/[.\s]/g`. */
  predicate IsSeparator(c: char) {
    c == '.' || IsSpace(c)
  }

  /** Records of the IMEI parser: the quoted tokens joined, with every period
      and white-space character deleted. No token makes `match` return null,
      and `null.map` throws. */
  function ParseImei(out: Exec): (r: Record)
    ensures out.ExecFailed? ==> r == ErrorRecord(Rejected(out.reason))
    ensures out.Exec? && out.stderr != "" ==> r == map["imei01-section" := Str(out.stderr)]
    ensures out.Exec? && out.stderr == "" && QuotedTokens(out.stdout) == [] ==> r.Keys == {"error"}
    ensures out.Exec? && out.stderr == "" && QuotedTokens(out.stdout) != [] ==>
              r.Keys == {"imei01"} && r["imei01"].Str? &&
              r["imei01"].s == Join(WithoutEach(QuotedTokens(out.stdout), IsSeparator), "") &&
              forall i :: 0 <= i < |r["imei01"].s| ==> !IsSeparator(r["imei01"].s[i])
  {
    match out
    case ExecFailed(e) => ErrorRecord(Rejected(e))
    case Exec(stdout, stderr) =>
      if stderr != "" then map["imei01-section" := Str(stderr)]
      else
        var tokens := QuotedTokens(stdout);
        if tokens == [] then ErrorRecord(TypeError("matches is null"))
        else
          WithoutJoin(tokens, IsSeparator);
          map["imei01" := Str(Without(Join(tokens, ""), IsSeparator))]
  }

  /** Each token wrapped in single quotes and followed by a space. */
  function Quote(ts: seq<string>): string {
    if ts == [] then "" else "'" + ts[0] + "' " + Quote(ts[1..])
  }

  /** One quoted token followed by the rest of the reply. */
  lemma QuotedTokensStep(t: string, u: string)
    requires t != [] && '\'' !in t
    ensures QuotedTokens("'" + t + "'" + u) == [t] + QuotedTokens(u)
  {
    var s := "'" + t + "'" + u;
    assert s[1..] == t + ("'" + u);
    IndexOfSkip(t, "'" + u, "'");
    assert IndexOf("'" + u, "'") == Some(0);
    assert s[1..|t| + 1] == t;
    assert s[|t| + 2..] == u;
  }

  /** The quoted-token scan inverts `Quote` for non-empty quote-free tokens. */
  lemma {:induction false} QuotedTokensQuote(ts: seq<string>)
    requires forall k :: 0 <= k < |ts| ==> ts[k] != [] && '\'' !in ts[k]
    ensures QuotedTokens(Quote(ts)) == ts
  {
    if ts != [] {
      var rest := Quote(ts[1..]);
      assert Quote(ts) == "'" + ts[0] + "'" + (" " + rest);
      QuotedTokensStep(ts[0], " " + rest);
      assert QuotedTokens(" " + rest) == QuotedTokens(rest) by { assert (" " + rest)[1..] == rest; }
      QuotedTokensQuote(ts[1..]);
    }
  }

  /** Text without a quote before the next match is skipped by the scan. */
  lemma {:induction false} SkipPlain(x: string, u: string)
    requires '\'' !in x
    ensures QuotedTokens(x + u) == QuotedTokens(u)
    decreases |x|
  {
    if x == [] {
      assert x + u == u;
    } else {
      assert (x + u)[0] == x[0];
      assert (x + u)[1..] == x[1..] + u;
      SkipPlain(x[1..], u);
    }
  }

  /** Quoted groups with quote-free filler before, between and after them:
      `fillers[k]` precedes `groups[k]` and the last filler ends the text. */
  function QuoteAmid(groups: seq<string>, fillers: seq<string>): string
    requires |fillers| == |groups| + 1
  {
    if groups == [] then fillers[0]
    else fillers[0] + "'" + groups[0] + "'" + QuoteAmid(groups[1..], fillers[1..])
  }

  /** The scan finds exactly the quoted groups amid quote-free filler. */
  lemma {:induction false} QuotedTokensAmid(groups: seq<string>, fillers: seq<string>)
    requires |fillers| == |groups| + 1
    requires forall k :: 0 <= k < |groups| ==> groups[k] != [] && '\'' !in groups[k]
    requires forall k :: 0 <= k < |fillers| ==> '\'' !in fillers[k]
    ensures QuotedTokens(QuoteAmid(groups, fillers)) == groups
  {
    if groups == [] {
      SkipPlain(fillers[0], "");
      assert fillers[0] + "" == fillers[0];
    } else {
      var tail := QuoteAmid(groups[1..], fillers[1..]);
      assert QuoteAmid(groups, fillers) == fillers[0] + ("'" + groups[0] + "'" + tail);
      SkipPlain(fillers[0], "'" + groups[0] + "'" + tail);
      QuotedTokensStep(groups[0], tail);
      QuotedTokensAmid(groups[1..], fillers[1..]);
    }
  }

  /** A service-call reply in which the IMEI's groups sit in quotes amid
      quote-free text (offsets, hex words, the `Result: Parcel(` frame)
      reconstructs the groups with their periods and white space deleted,
      glued in order. */
  lemma ImeiOfReply(groups: seq<string>, fillers: seq<string>)
    requires groups != [] && |fillers| == |groups| + 1
    requires forall k :: 0 <= k < |groups| ==> groups[k] != [] && '\'' !in groups[k]
    requires forall k :: 0 <= k < |fillers| ==> '\'' !in fillers[k]
    ensures ParseImei(Exec(QuoteAmid(groups, fillers), "")) == map["imei01" := Str(Join(WithoutEach(groups, IsSeparator), ""))]
  {
    QuotedTokensAmid(groups, fillers);
  }

  /** A reply carrying the IMEI's digit groups in quotes, however they are
      dotted and spaced, reconstructs the groups' digits glued in order. */
  lemma ImeiOfQuotedGroups(groups: seq<string>)
    requires groups != []
    requires forall k :: 0 <= k < |groups| ==> groups[k] != [] && '\'' !in groups[k]
    ensures ParseImei(Exec(Quote(groups), "")) == map["imei01" := Str(Join(WithoutEach(groups, IsSeparator), ""))]
  {
    QuotedTokensQuote(groups);
  }

  /** Groups that carry no period or white space come back verbatim. */
  lemma ImeiOfPlainGroups(groups: seq<string>)
    requires groups != []
    requires forall k :: 0 <= k < |groups| ==> groups[k] != [] && '\'' !in groups[k]
    requires forall k, i :: 0 <= k < |groups| && 0 <= i < |groups[k]| ==> !IsSeparator(groups[k][i])
    ensures ParseImei(Exec(Quote(groups), "")) == map["imei01" := Str(Join(groups, ""))]
  {
    ImeiOfQuotedGroups(groups);
    assert WithoutEach(groups, IsSeparator) == groups;
  }

  // --------------------------------------------------------------- route

  /** Records of the route parser. Non-empty stdout wins over stderr; with a
      `src` token the IP is the token after the first `src`; with stdout empty,
      a diagnostic leaves `data` null and silence means data is off. */
  function ParseRoute(out: Exec): (r: Record)
    ensures out.ExecFailed? ==> r == ErrorRecord(Rejected(out.reason))
    ensures out.Exec? && out.stdout != "" ==> r == RouteOf(SplitWs(Trim(out.stdout)))
    ensures out.Exec? && out.stdout == "" && out.stderr != "" ==>
              r == map["ip-section" := Str(out.stderr), "data" := Null]
    ensures out.Exec? && out.stdout == "" && out.stderr == "" ==> r == map["data" := Str("false")]
  {
    match out
    case ExecFailed(e) => ErrorRecord(Rejected(e))
    case Exec(stdout, stderr) =>
      if stdout != "" then RouteOf(SplitWs(Trim(stdout)))
      else if stderr != "" then map["ip-section" := Str(stderr), "data" := Null]
      else map["data" := Str("false")]
  }

  /** The record a route reply's words give: nothing without `src`; with it,
      `data` is `true` and `ip` the word after the first `src`. */
  function RouteOf(parts: seq<string>): (r: Record)
    ensures "src" !in parts ==> r == map[]
    ensures "src" in parts ==> r.Keys == {"data", "ip"} && r["data"] == Str("true")
    ensures forall i :: 0 <= i < |parts| - 1 && parts[i] == "src" && "src" !in parts[..i] ==>
              r["ip"] == Str(parts[i + 1])
  {
    match Find(parts, "src")
    case None => map[]
    case Some(i) =>
      assert forall j :: 0 <= j < |parts| && parts[j] == "src" && "src" !in parts[..j] ==> j == i by {
        forall j | 0 <= j < |parts| && parts[j] == "src" && "src" !in parts[..j] ensures j == i {
          FindFirst(parts, "src", j);
        }
      }
      map["data" := Str("true"), "ip" := if i + 1 < |parts| then Str(parts[i + 1]) else Undefined]
  }

  /** The three data outcomes, stated for the `data` field alone: `false` only
      from a silent command, `null` only from a diagnostic with no output. */
  lemma RouteDataOutcomes(out: Exec)
    requires out.Exec?
    ensures ("data" in ParseRoute(out) && ParseRoute(out)["data"] == Str("false"))
              <==> (out.stdout == "" && out.stderr == "")
    ensures ("data" in ParseRoute(out) && ParseRoute(out)["data"] == Null)
              <==> (out.stdout == "" && out.stderr != "")
    ensures ("data" in ParseRoute(out) && ParseRoute(out)["data"] == Str("true"))
              <==> (out.stdout != "" && "src" in SplitWs(Trim(out.stdout)))
  {
  }

  /** A route line written as single-space-separated words yields the word
      after its first `src` as the IP. */
  lemma RouteLine(words: seq<string>, i: nat)
    requires i + 1 < |words|
    requires forall k :: 0 <= k < |words| ==> words[k] != [] && NoSpace(words[k])
    requires words[i] == "src" && "src" !in words[..i]
    ensures var r := ParseRoute(Exec(Join(words, " "), ""));
            r.Keys == {"data", "ip"} && r["data"] == Str("true") && r["ip"] == Str(words[i + 1])
  {
    var line := Join(words, " ");
    assert Trim(line) == line by { JoinTrimmed(words); TrimTrimmed(line); }
    assert SplitWs(line) == words by { SplitWsJoin(words); }
    assert line != "" by { JoinHead(words, " "); }
    assert Find(words, "src") == Some(i) by { FindFirst(words, "src", i); }
    var r := ParseRoute(Exec(line, ""));
    assert r.Keys == {"data", "ip"} && r["data"] == Str("true");
    assert r["ip"] == Str(words[i + 1]);
  }

  /** Non-empty words joined by spaces have no white space at either end. */
  lemma {:induction false} JoinTrimmed(words: seq<string>)
    requires |words| >= 1
    requires forall k :: 0 <= k < |words| ==> words[k] != [] && NoSpace(words[k])
    ensures Trimmed(Join(words, " "))
  {
    var line := Join(words, " ");
    if |words| > 1 {
      JoinTrimmed(words[1..]);
      var tail := Join(words[1..], " ");
      JoinHead(words[1..], " ");
      assert line == words[0] + " " + tail;
      assert line[|line| - 1] == tail[|tail| - 1];
    }
  }

  // --------------------------------------------------------------- merge

  function Get(r: Record, k: string): Option<Val> {
    if k in r then Some(r[k]) else None
  }

  /** The network snapshot: the four records merged in order getprop,
      settings, IMEI, route (later ones win, `error` included), then the
      configured device id attached last. */
  function LoadNetwork(device: string, props: Exec, settings: Exec, imei: Exec, route: Exec): (r: Record)
    ensures Get(r, "device") == Some(Str(device))
    ensures forall k :: k != "device" ==>
      Get(r, k) ==
        if k in ParseRoute(route) then Some(ParseRoute(route)[k])
        else if k in ParseImei(imei) then Some(ParseImei(imei)[k])
        else if k in ParseSettings(settings) then Some(ParseSettings(settings)[k])
        else Get(ParseProperties(props), k)
  {
    var p, s, i, rt := ParseProperties(props), ParseSettings(settings), ParseImei(imei), ParseRoute(route);
    AssignFour(p, s, i, rt);
    Assign([p, s, i, rt])["device" := Str(device)]
  }

  // ------------------------------------------------------------- display

  /** A tri-state shown as On, Off or '-'. */
  datatype Toggle = On | Off | Unknown

  /** `v === 'true' ? On : v === 'false' ? Off : '-'`. */
  function ToggleOf(v: Option<Val>): (t: Toggle)
    ensures t == On <==> v == Some(Str("true"))
    ensures t == Off <==> v == Some(Str("false"))
  {
    if v == Some(Str("true")) then On else if v == Some(Str("false")) then Off else Unknown
  }

  /** JavaScript truthiness of a field. */
  predicate Truthy(v: Option<Val>) {
    match v
    case None => false
    case Some(Str(s)) => s != ""
    case Some(Null) => false
    case Some(Undefined) => false
    case Some(_) => true
  }

  /** A SIM table cell: `Array.isArray(v) ? v[sim] : (v || '-')`. `None` is an
      undefined list element, which renders as an empty cell. */
  function SimCell(v: Option<Val>, sim: nat): (c: Option<string>)
    requires sim < 2
    ensures v.Some? && v.value.List? ==> (c.Some? <==> sim < |v.value.items|)
    ensures v.Some? && v.value.List? && sim < |v.value.items| ==> c == Some(v.value.items[sim])
    ensures !Truthy(v) ==> c == Some("-")
    ensures v.Some? && v.value.Str? && v.value.s != "" ==> c == Some(v.value.s)
  {
    match v
    case Some(List(items)) => if sim < |items| then Some(items[sim]) else None
    case Some(Str(s)) => if s != "" then Some(s) else Some("-")
    case _ =>
      // Only strings and lists are ever stored under the SIM fields; the
      // remaining kinds are falsy except the object kinds, shown as '-' here.
      Some("-")
  }

  /** The roaming row as written: both SIM tables read element 0 of the
      field, and element 0 of a plain string is its first character. */
  function RoamingAsWritten(v: Option<Val>): (t: Toggle)
    ensures t != Unknown ==> v.Some? && v.value.List? && |v.value.items| > 0
    ensures v.Some? && v.value.List? && |v.value.items| > 0 ==> t == ToggleOf(Some(Str(v.value.items[0])))
  {
    var first: Option<string> :=
      match v
      case Some(List(items)) => if |items| > 0 then Some(items[0]) else None
      case Some(Str(s)) => if s != "" then Some([s[0]]) else None
      case _ => None;
    if first == Some("true") then On else if first == Some("false") then Off else Unknown
  }

  /** The roaming row as the other rows are built: the SIM's own element of a
      list, or the plain value itself. */
  function Roaming(v: Option<Val>, sim: nat): (t: Toggle)
    requires sim < 2
    ensures t == On <==> SimCell(v, sim) == Some("true")
    ensures t == Off <==> SimCell(v, sim) == Some("false")
  {
    match SimCell(v, sim)
    case Some(c) => ToggleOf(Some(Str(c)))
    case None => Unknown
  }

  /** A single-SIM device reporting plain `true` shows '-' for roaming as
      written, and On when the plain value is used. */
  lemma RoamingScalarMisread()
    ensures RoamingAsWritten(Some(Str("true"))) == Unknown
    ensures Roaming(Some(Str("true")), 0) == On
  {
    assert ['t'] != "true";
  }

  /** The second SIM's roaming flag is never read as written: SIM 2 shows
      SIM 1's flag. */
  lemma RoamingSecondSimMisread()
    ensures RoamingAsWritten(Some(List(["false", "true"]))) == Off
    ensures Roaming(Some(List(["false", "true"])), 1) == On
  {
  }

  /** The corrected selector agrees with the written one on SIM 1 of a list. */
  lemma RoamingAgreesOnFirstSim(items: seq<string>)
    requires |items| > 0
    ensures Roaming(Some(List(items)), 0) == RoamingAsWritten(Some(List(items)))
  {
  }
}
