/** The log page: how the log file is loaded, and what each poll tick does to
    the displayed text in the "Up" and "Down" directions. */
module LogView {
  import opened Js
  import opened Text

  /** `load`: nothing when the read failed or the file is blank; otherwise the
      trimmed text, which then has no blank at either end. */
  function LoadLog(read: Option<string>): (r: Option<string>)
    ensures r.None? <==> read.None? || AllSpace(read.value)
    ensures r.Some? ==> r.value == Trim(read.value) && r.value != "" && Trimmed(r.value)
  {
    match read
    case None => None
    case Some(text) =>
      if text == "" || Trim(text) == "" then
        assert AllSpace(text) by { if text != "" { TrimEmptyOnlyIfSpace(text); } }
        None
      else
        assert !AllSpace(text) by { if AllSpace(text) { TrimAllSpace(text); } }
        Some(Trim(text))
  }

  /** The text area's content when the page renders. */
  function Initial(loaded: Option<string>): (shown: string)
    ensures loaded.None? ==> shown == ""
  {
    match loaded
    case None => ""
    case Some(text) => text
  }

  /** `split('\n').reverse().join('\n')`: the lines of the result are the
      shown lines in reverse order. */
  function Flip(shown: string): (r: string)
    ensures Split(r, "\n") == Reverse(Split(shown, "\n"))
  {
    var ls := Split(shown, "\n");
    SplitPiecesLackSep(shown, '\n');
    forall k | 0 <= k < |ls| ensures '\n' !in Reverse(ls)[k] {
      assert Reverse(ls)[k] == ls[|ls| - 1 - k];
    }
    SplitJoin(Reverse(ls), '\n');
    Join(Reverse(ls), "\n")
  }

  /** One poll tick, as written: in direction `up` the CURRENT text is
      flipped again; any other direction leaves it alone. */
  function PollTick(direction: string, shown: string): (r: string)
    ensures direction != "up" ==> r == shown
  {
    if direction == "up" then Flip(shown) else shown
  }

  /** A tick in direction `up` keeps the number of lines and every line,
      only their order changes. */
  lemma TickKeepsLines(shown: string)
    ensures |Split(PollTick("up", shown), "\n")| == |Split(shown, "\n")|
    ensures multiset(Split(PollTick("up", shown), "\n")) == multiset(Split(shown, "\n"))
  {
    ReverseMultiset(Split(shown, "\n"));
  }

  /** Two `up` ticks in a row restore the text they started from. */
  lemma TwoTicksRestore(shown: string)
    ensures PollTick("up", PollTick("up", shown)) == shown
  {
    var ls := Split(shown, "\n");
    ReverseReverse(ls);
    JoinSplit(shown, "\n");
  }

  /** The display the direction selector evidently asks for: the loaded log
      newest line first while `up` is selected and in file order otherwise,
      whatever was shown before the tick. */
  function IntendedTick(loaded: string, direction: string, shown: string): (r: string)
    ensures Split(r, "\n") ==
              if direction == "up" then Reverse(Split(loaded, "\n")) else Split(loaded, "\n")
  {
    if direction == "up" then Flip(loaded)
    else (SplitJoinSplit(loaded); loaded)
  }

  /** Splitting is unchanged by a join-split round trip (the identity on the text). */
  lemma SplitJoinSplit(s: string)
    ensures Split(Join(Split(s, "\n"), "\n"), "\n") == Split(s, "\n")
  {
    JoinSplit(s, "\n");
  }

  /** The intended display depends only on the direction: a second tick
      changes nothing. */
  lemma IntendedTickSettles(loaded: string, direction: string, shown: string)
    ensures IntendedTick(loaded, direction, IntendedTick(loaded, direction, shown)) ==
            IntendedTick(loaded, direction, shown)
  {
  }

  /** As written, a two-line log under `up` is back in file order after the
      second tick, where the intended display stays newest first. */
  lemma TickFlipsBack()
    ensures var loaded := "a\nb";
            && PollTick("up", PollTick("up", Initial(Some(loaded)))) == "a\nb"
            && IntendedTick(loaded, "up", IntendedTick(loaded, "up", loaded)) == "b\na"
  {
    var loaded := "a\nb";
    assert Initial(Some(loaded)) == loaded;
    TwoTicksRestore(loaded);
    var once := IntendedTick(loaded, "up", loaded);
    assert once == Flip(loaded);
    assert IntendedTick(loaded, "up", once) == Flip(loaded);
    FlipTwoLines();
  }

  lemma FlipTwoLines()
    ensures Flip("a\nb") == "b\na"
  {
    assert Join(["a", "b"], "\n") == "a\nb";
    assert Split("a\nb", "\n") == ["a", "b"] by { SplitJoin(["a", "b"], '\n'); }
    assert Reverse(["a", "b"]) == ["b", "a"];
    assert Join(["b", "a"], "\n") == "b\na";
  }
}
