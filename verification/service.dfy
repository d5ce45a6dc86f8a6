/** The service view's `load`: the `df` storage parser and the installed
    package parser, merged with the configured device id; and the test at the
    top of `render` that tells a device conflict from a usable snapshot. */
module Service {
  import opened Js
  import opened Text

  /** The diagnostic text that marks the configured device as not attached. */
  const NotFound := "error: device not found"

  /** The prefix `pm list packages` puts on every line. */
  const PackagePrefix := "package:"

  // ------------------------------------------------------------------ df

  /** The record field a `df` header cell names (the `properties` lookup). */
  function ColumnField(cell: string): (f: Option<string>)
    ensures f == Some("percentage") <==> cell == "Use%"
    ensures f == Some("size") <==> cell == "Size"
  {
    if cell == "Size" then Some("size")
    else if cell == "Used" then Some("use")
    else if cell == "Avail" then Some("free")
    else if cell == "Use%" then Some("percentage")
    else if cell == "Mounted" then Some("mounted")
    else None
  }

  /** The data cell under header column `i`; `undefined` past the row's end. */
  function Cell(data: seq<string>, i: nat): Val {
    if i < |data| then Str(data[i]) else Undefined
  }

  /** The column loop: every labelled header cell stores the data cell at the
      same index under its field; a later column with the same label wins. */
  function Columns(header: seq<string>, data: seq<string>): (t: map<string, Val>)
    ensures forall k :: k in t <==> exists i :: 0 <= i < |header| && ColumnField(header[i]) == Some(k)
  {
    if header == [] then map[]
    else
      var n := |header| - 1;
      assert forall i :: 0 <= i < n ==> header[..n][i] == header[i];
      var t := Columns(header[..n], data);
      match ColumnField(header[n])
      case None => t
      case Some(f) => t[f := Cell(data, n)]
  }

  /** A labelled column's value is the data cell aligned with its last header cell. */
  lemma {:induction false} ColumnsAligned(header: seq<string>, data: seq<string>, i: nat, f: string)
    requires i < |header| && ColumnField(header[i]) == Some(f)
    requires forall j :: i < j < |header| ==> ColumnField(header[j]) != Some(f)
    ensures f in Columns(header, data) && Columns(header, data)[f] == Cell(data, i)
  {
    var n := |header| - 1;
    ColumnsSnoc(header, data);
    if i < n {
      assert forall j :: 0 <= j < n ==> header[..n][j] == header[j];
      ColumnsAligned(header[..n], data, i, f);
      assert ColumnField(header[n]) != Some(f);
    }
  }

  /** The last header cell is processed last. */
  lemma ColumnsSnoc(header: seq<string>, data: seq<string>)
    requires header != []
    ensures var n := |header| - 1;
            Columns(header, data) ==
              match ColumnField(header[n])
              case None => Columns(header[..n], data)
              case Some(g) => Columns(header[..n], data)[g := Cell(data, n)]
  {
  }

  /** Records of the storage parser. A diagnostic is kept trimmed under
      `sdcard`; otherwise the first line is the header and the second the data
      row, and output without a second line throws. */
  function ParseDf(out: Exec): (r: Record)
    ensures r.Keys <= {"sdcard", "error"}
    ensures out.ExecFailed? ==> r == ErrorRecord(Rejected(out.reason))
    ensures out.Exec? && out.stderr != "" ==> r == map["sdcard" := Str(Trim(out.stderr))]
    ensures out.Exec? && out.stderr == "" && '\n' !in out.stdout ==> r.Keys == {"error"}
    ensures out.Exec? && out.stderr == "" && '\n' in out.stdout ==>
              r.Keys == {"sdcard"} && r["sdcard"].Table?
              && r["sdcard"].cells.Keys <= {"size", "use", "free", "percentage", "mounted"}
  {
    match out
    case ExecFailed(e) => ErrorRecord(Rejected(e))
    case Exec(stdout, stderr) =>
      if stderr != "" then map["sdcard" := Str(Trim(stderr))]
      else
        var lines := Split(stdout, "\n");
        ContainsChar(stdout, '\n');
        if |lines| < 2 then ErrorRecord(TypeError("lines[1] is undefined"))
        else map["sdcard" := Table(Columns(SplitWs(lines[0]), SplitWs(lines[1])))]
  }

  /** A header line and a data line, however their columns are padded and
      whether or not the output ends there, with a line break or with more
      lines: the field of a labelled column holds the data word at that
      column's index verbatim (`undefined` when the data line has fewer words). */
  lemma DfColumn(h: string, d: string, rest: string, i: nat, f: string)
    requires '\n' !in h && '\n' !in d
    requires rest == "" || rest[0] == '\n'
    requires i < |SplitWs(h)| && ColumnField(SplitWs(h)[i]) == Some(f)
    requires forall j :: i < j < |SplitWs(h)| ==> ColumnField(SplitWs(h)[j]) != Some(f)
    ensures var r := ParseDf(Exec(h + "\n" + d + rest, ""));
            "sdcard" in r && r["sdcard"].Table? && f in r["sdcard"].cells
            && r["sdcard"].cells[f] == Cell(SplitWs(d), i)
  {
    var out := h + "\n" + d + rest;
    FirstTwoLines(h, d, rest);
    DfOfLines(out);
    ColumnsAligned(SplitWs(h), SplitWs(d), i, f);
  }

  /** Output with a second line is the table of its first two lines. */
  lemma DfOfLines(out: string)
    requires |Split(out, "\n")| >= 2
    ensures var lines := Split(out, "\n");
            ParseDf(Exec(out, "")) == map["sdcard" := Table(Columns(SplitWs(lines[0]), SplitWs(lines[1])))]
  {
  }

  /** The first two lines of such output are the header and the data line. */
  lemma FirstTwoLines(h: string, d: string, rest: string)
    requires '\n' !in h && '\n' !in d
    requires rest == "" || rest[0] == '\n'
    ensures var lines := Split(h + "\n" + d + rest, "\n");
            |lines| >= 2 && lines[0] == h && lines[1] == d
  {
    if rest == "" {
      assert Join([h, d], "\n") == h + "\n" + d;
      SplitJoin([h, d], '\n');
      assert h + "\n" + d + rest == h + "\n" + d;
    } else {
      var more := rest[1..];
      assert rest == "\n" + more;
      assert h + "\n" + d + rest == h + "\n" + (d + "\n" + more);
      SplitHead(h, "\n", d + "\n" + more);
      SplitHead(d, "\n", more);
    }
  }

  /** Single-space-separated words are the special case of `DfColumn`. */
  lemma DfColumnOfWords(header: seq<string>, row: seq<string>, i: nat, f: string)
    requires |header| >= 1 && |row| >= 1
    requires forall k :: 0 <= k < |header| ==> header[k] != [] && NoSpace(header[k])
    requires forall k :: 0 <= k < |row| ==> row[k] != [] && NoSpace(row[k])
    requires i < |header| && ColumnField(header[i]) == Some(f)
    requires forall j :: i < j < |header| ==> ColumnField(header[j]) != Some(f)
    ensures var r := ParseDf(Exec(Join(header, " ") + "\n" + Join(row, " "), ""));
            "sdcard" in r && r["sdcard"].Table? && f in r["sdcard"].cells
            && r["sdcard"].cells[f] == Cell(row, i)
  {
    var h, d := Join(header, " "), Join(row, " ");
    assert '\n' !in h by { NoNewline(header); }
    assert '\n' !in d by { NoNewline(row); }
    assert SplitWs(h) == header by { SplitWsJoin(header); }
    assert SplitWs(d) == row by { SplitWsJoin(row); }
    assert h + "\n" + d + "" == h + "\n" + d;
    DfColumn(h, d, "", i, f);
  }

  /** Words without white space joined by spaces contain no line break. */
  lemma {:induction false} NoNewline(words: seq<string>)
    requires forall k :: 0 <= k < |words| ==> NoSpace(words[k])
    ensures '\n' !in Join(words, " ")
  {
    if |words| > 1 {
      NoNewline(words[1..]);
      assert Join(words, " ") == words[0] + " " + Join(words[1..], " ");
    } else if |words| == 1 {
      assert forall i :: 0 <= i < |words[0]| ==> words[0][i] != '\n';
    }
  }

  // ------------------------------------------------------------ packages

  /** Each package line with its first `package:` removed. */
  function StripPrefixes(lines: seq<string>): (r: seq<string>)
    ensures |r| == |lines|
    ensures forall k :: 0 <= k < |lines| ==> r[k] == ReplaceFirst(lines[k], PackagePrefix, "")
  {
    seq(|lines|, k requires 0 <= k < |lines| => ReplaceFirst(lines[k], PackagePrefix, ""))
  }

  /** Records of the package parser: one entry per line of the trimmed output,
      in order, or the trimmed diagnostic as a plain string. */
  function ParsePackages(out: Exec): (r: Record)
    ensures r.Keys <= {"packages", "error"}
    ensures out.ExecFailed? ==> r == ErrorRecord(Rejected(out.reason))
    ensures out.Exec? && out.stderr != "" ==> r == map["packages" := Str(Trim(out.stderr))]
    ensures out.Exec? && out.stderr == "" ==>
              r.Keys == {"packages"} && r["packages"].List?
              && |r["packages"].items| == |Split(Trim(out.stdout), "\n")|
              && forall k :: 0 <= k < |r["packages"].items| ==>
                   r["packages"].items[k] == ReplaceFirst(Split(Trim(out.stdout), "\n")[k], PackagePrefix, "")
  {
    match out
    case ExecFailed(e) => ErrorRecord(Rejected(e))
    case Exec(stdout, stderr) =>
      if stderr != "" then map["packages" := Str(Trim(stderr))]
      else map["packages" := List(StripPrefixes(Split(Trim(stdout), "\n")))]
  }

  /** `package:`-prefixed lines parse back to the package names, in order. */
  lemma PackagesOfListing(names: seq<string>)
    requires |names| >= 1
    requires forall k :: 0 <= k < |names| ==> Trimmed(names[k]) && '\n' !in names[k]
    ensures ParsePackages(Exec(Join(Prefixed(names), "\n"), "")) == map["packages" := List(names)]
  {
    var lines := Prefixed(names);
    var text := Join(lines, "\n");
    assert Trim(text) == text by { PrefixedJoinTrimmed(names); TrimTrimmed(text); }
    assert Split(text, "\n") == lines by { ListingSplits(names); }
    StripListing(names);
  }

  /** The listing's lines are its `package:` lines. */
  lemma ListingSplits(names: seq<string>)
    requires |names| >= 1
    requires forall k :: 0 <= k < |names| ==> '\n' !in names[k]
    ensures Split(Join(Prefixed(names), "\n"), "\n") == Prefixed(names)
  {
    var lines := Prefixed(names);
    forall k | 0 <= k < |lines| ensures '\n' !in lines[k] {
      assert lines[k] == PackagePrefix + names[k];
    }
    SplitJoin(lines, '\n');
  }

  /** Removing the prefix from each prefixed name gives the name back. */
  lemma StripListing(names: seq<string>)
    ensures StripPrefixes(Prefixed(names)) == names
  {
    var lines := Prefixed(names);
    forall k | 0 <= k < |lines| ensures ReplaceFirst(lines[k], PackagePrefix, "") == names[k] {
      StripOne(names[k]);
    }
  }

  lemma StripOne(name: string)
    ensures ReplaceFirst(PackagePrefix + name, PackagePrefix, "") == name
  {
    var line := PackagePrefix + name;
    assert OccursAt(line, PackagePrefix, 0);
    assert line[|PackagePrefix|..] == name;
  }

  /** Package names as `pm list packages` prints them. */
  function Prefixed(names: seq<string>): (lines: seq<string>)
    ensures |lines| == |names|
    ensures forall k :: 0 <= k < |names| ==> lines[k] == PackagePrefix + names[k]
  {
    seq(|names|, k requires 0 <= k < |names| => PackagePrefix + names[k])
  }

  lemma {:induction false} PrefixedJoinTrimmed(names: seq<string>)
    requires |names| >= 1
    requires forall k :: 0 <= k < |names| ==> Trimmed(names[k])
    ensures Trimmed(Join(Prefixed(names), "\n"))
  {
    var lines := Prefixed(names);
    var text := Join(lines, "\n");
    JoinHead(lines, "\n");
    assert text[0] == 'p';
    LastOfJoin(lines, "\n");
    var last := lines[|lines| - 1];
    assert last == PackagePrefix + names[|names| - 1];
    assert text[|text| - 1] == last[|last| - 1];
  }



  /** Empty output yields a one-entry list holding the empty name, since
      `"".split('\n')` is `[""]`. */
  lemma PackagesOfEmptyOutput()
    ensures ParsePackages(Exec("", "")) == map["packages" := List([""])]
  {
    assert Trim("") == "" by { TrimAllSpace(""); }
    assert Split("", "\n") == [""];
    assert !Contains("", PackagePrefix) by { ContainsIff("", PackagePrefix); }
    assert StripPrefixes([""]) == [""];
  }

  // --------------------------------------------------------- merge, view

  /** The service snapshot: `{device}`, then the storage record, then the
      package record. */
  function LoadService(device: string, df: Exec, pm: Exec): (r: Record)
    ensures "device" in r && r["device"] == Str(device)
    ensures ("sdcard" in r <==> "sdcard" in ParseDf(df))
    ensures "sdcard" in r ==> r["sdcard"] == ParseDf(df)["sdcard"]
    ensures ("packages" in r <==> "packages" in ParsePackages(pm))
    ensures "packages" in r ==> r["packages"] == ParsePackages(pm)["packages"]
  {
    MergeService(device, ParseDf(df), ParsePackages(pm));
    Assign([map["device" := Str(device)], ParseDf(df), ParsePackages(pm)])
  }

  /** Merging the id with a storage and a package record keeps each field
      where it came from. */
  lemma MergeService(device: string, d: Record, p: Record)
    requires d.Keys <= {"sdcard", "error"} && p.Keys <= {"packages", "error"}
    ensures var r := Assign([map["device" := Str(device)], d, p]);
            && "device" in r && r["device"] == Str(device)
            && ("sdcard" in r <==> "sdcard" in d)
            && ("sdcard" in r ==> r["sdcard"] == d["sdcard"])
            && ("packages" in r <==> "packages" in p)
            && ("packages" in r ==> r["packages"] == p["packages"])
  {
    var a := map["device" := Str(device)];
    AssignThree(a, d, p);
    assert "device" !in d && "device" !in p && "sdcard" !in p;
    assert "sdcard" !in a && "packages" !in a && "packages" !in d;
    var ad := a + d;
    assert "device" in ad && ad["device"] == Str(device);
    assert "sdcard" in ad <==> "sdcard" in d;
    assert "sdcard" in ad ==> ad["sdcard"] == d["sdcard"];
    assert "packages" !in ad;
  }

  /** What the service view renders from a snapshot. */
  datatype ServiceView =
    | DeviceConflict            // a notice and no controls
    | Controls(packages: seq<string>)
    | RenderFault               // `render` throws a TypeError

  /** `packages.filter` needs a list. */
  function PackagesView(data: Record): (v: ServiceView)
    ensures v != DeviceConflict
  {
    if "packages" in data && data["packages"].List? then Controls(data["packages"].items)
    else RenderFault
  }

  /** `data.sdcard.includes('error: device not found')`: a substring test on a
      string, an element test on an array (the `df` table is an empty array
      with named properties), and a TypeError on anything else. */
  function Classify(data: Record): (v: ServiceView)
    ensures v == DeviceConflict <==>
              "sdcard" in data &&
              ((data["sdcard"].Str? && Contains(data["sdcard"].s, NotFound))
               || (data["sdcard"].List? && NotFound in data["sdcard"].items))
  {
    if "sdcard" !in data then RenderFault
    else match data["sdcard"]
      case Str(s) => if Contains(s, NotFound) then DeviceConflict else PackagesView(data)
      case List(items) => if NotFound in items then DeviceConflict else PackagesView(data)
      case Table(_) => PackagesView(data)
      case _ => RenderFault
  }

  /** On a loaded snapshot, the conflict branch is taken exactly when `df`
      reported a diagnostic mentioning the missing device. */
  lemma ConflictIff(device: string, df: Exec, pm: Exec)
    ensures Classify(LoadService(device, df, pm)) == DeviceConflict <==>
            df.Exec? && df.stderr != "" && Contains(Trim(df.stderr), NotFound)
  {
  }

  /** A usable snapshot shows exactly the parsed package list. */
  lemma ControlsShowPackages(device: string, df: Exec, pm: Exec)
    requires df.Exec? && df.stderr == "" && '\n' in df.stdout
    requires pm.Exec? && pm.stderr == ""
    ensures Classify(LoadService(device, df, pm)) == Controls(ParsePackages(pm)["packages"].items)
  {
    var data := LoadService(device, df, pm);
    var d, p := ParseDf(df), ParsePackages(pm);
    assert d["sdcard"].Table? && p["packages"].List?;
    assert data["sdcard"] == d["sdcard"] && data["packages"] == p["packages"];
    ClassifyTable(data);
  }

  /** A storage table is never a conflict. */
  lemma ClassifyTable(data: Record)
    requires "sdcard" in data && data["sdcard"].Table?
    ensures Classify(data) == PackagesView(data)
  {
  }
}
