/** The activity log `/var/log/droidnet.log`: how an action appends its
    timestamped entry (read the file, trim it, add a line, write it back) and
    what the file's lines are afterwards. */
module Logbook {
  import opened Js
  import opened Text

  /** The log file's path. */
  const LogPath := "/var/log/droidnet.log"

  /** `network.js` writes the file without a final line break; `service.js`
      ends it with one. */
  datatype Style = Bare | NewlineTerminated

  /** The entry line `${date}, ${time} - ${message}`. */
  function Entry(date: string, time: string, message: string): (e: string)
    ensures |e| == |date| + |time| + |message| + 5
    ensures e[..|date|] == date && e[|date|..|date| + 2] == ", "
    ensures e[|date| + 2..|date| + 2 + |time|] == time
    ensures e[|date| + 2 + |time|..|date| + 5 + |time|] == " - "
    ensures e[|e| - |message|..] == message
  {
    date + ", " + time + " - " + message
  }

  /** `fs.read(log).then(r => fs.write(log, r.trim() + '\n' + entry ...))`:
      the text written back, or nothing when the read failed. */
  function Append(read: Option<string>, style: Style, entry: string): (w: Option<string>)
    ensures w.Some? <==> read.Some?
  {
    match read
    case None => None
    case Some(prior) =>
      var text := Trim(prior) + "\n" + entry;
      Some(if style == Bare then text else text + "\n")
  }

  /** The entries of a log text: its trimmed lines, none when it is blank. */
  function Lines(text: string): seq<string> {
    if Trim(text) == "" then [] else Split(Trim(text), "\n")
  }

  /** An entry that fits on one line and does not begin or end with blank. */
  predicate OneLine(entry: string) {
    entry != "" && Trimmed(entry) && '\n' !in entry
  }

  /** Appending keeps every earlier entry, in order, and adds the new one last. */
  lemma AppendKeepsHistory(prior: string, style: Style, entry: string)
    requires OneLine(entry)
    ensures Lines(Append(Some(prior), style, entry).value) == Lines(prior) + [entry]
  {
    var t := Trim(prior);
    var w := Append(Some(prior), style, entry).value;
    TrimAfterAppend(prior, style, entry);
    if t == "" {
      assert Split(entry, "\n") == [entry] by { SplitJoin([entry], '\n'); }
    } else {
      SplitAfterLine(t, entry);
    }
  }

  /** The trimmed file after an append: the new entry after the trimmed old text. */
  lemma TrimAfterAppend(prior: string, style: Style, entry: string)
    requires OneLine(entry)
    ensures var t := Trim(prior);
            Trim(Append(Some(prior), style, entry).value) == if t == "" then entry else t + "\n" + entry
  {
    var t := Trim(prior);
    var sfx := if style == Bare then "" else "\n";
    assert Append(Some(prior), style, entry).value == t + "\n" + entry + sfx;
    BreakIsSpace();
    if t == "" {
      TrimLoneLine(entry, sfx);
    } else {
      TrimLine(t, entry, sfx);
    }
  }

  lemma BreakIsSpace()
    ensures AllSpace("") && AllSpace("\n")
  {
    assert IsSpace("\n"[0]);
  }

  lemma TrimLoneLine(entry: string, sfx: string)
    requires OneLine(entry) && AllSpace(sfx)
    ensures Trim("" + "\n" + entry + sfx) == entry
  {
    BreakIsSpace();
    assert "" + "\n" + entry + sfx == "\n" + entry + sfx;
    TrimAround("\n", entry, sfx);
  }

  lemma TrimLine(t: string, entry: string, sfx: string)
    requires OneLine(entry) && t != "" && Trimmed(t) && AllSpace(sfx)
    ensures Trim(t + "\n" + entry + sfx) == t + "\n" + entry
  {
    var body := t + "\n" + entry;
    assert t + "\n" + entry + sfx == [] + body + sfx;
    assert Trimmed(body) by {
      assert body[0] == t[0];
      assert body[|body| - 1] == entry[|entry| - 1];
    }
    TrimAround([], body, sfx);
  }

  /** Splitting a text with one more line appended yields one more piece. */
  lemma SplitAfterLine(t: string, entry: string)
    requires '\n' !in entry
    ensures Split(t + "\n" + entry, "\n") == Split(t, "\n") + [entry]
  {
    var ls := Split(t, "\n");
    assert Join(ls, "\n") == t by { JoinSplit(t, "\n"); }
    assert Join(ls + [entry], "\n") == t + "\n" + entry by { JoinSnoc(ls, entry, "\n"); }
    SplitPiecesLackSep(t, '\n');
    SplitJoin(ls + [entry], '\n');
  }

  /** The written text starts with the trimmed old text and a line break,
      and ends with the entry (and, in `service.js`, one more line break). */
  lemma AppendPrefix(prior: string, style: Style, entry: string)
    ensures var w := Append(Some(prior), style, entry).value;
            var p := Trim(prior) + "\n";
            StartsWith(w, p)
            && w[|p|..] == (if style == Bare then entry else entry + "\n")
  {
  }
}
