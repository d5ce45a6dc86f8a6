/** The JavaScript string built-ins the views rely on, with their exact
    edge-case behaviour: `trim`, `indexOf`/`includes`, `split` by a string,
    `split(/\s+/)`, `join`, `replace` of a string pattern, `startsWith`,
    `toLowerCase` (ASCII only) and number-to-string. */
module Text {
  import opened Js

  /** The characters of JavaScript's `\s` class; `trim` strips the same set. */
  predicate IsSpace(c: char) {
    || c == ' ' || c == '\t' || c == '\n' || c == '\r' || c == '\U{0B}' || c == '\U{0C}'
    || c == '\U{A0}' || c == '\U{1680}' || ('\U{2000}' <= c <= '\U{200A}')
    || c == '\U{2028}' || c == '\U{2029}' || c == '\U{202F}' || c == '\U{205F}'
    || c == '\U{3000}' || c == '\U{FEFF}'
  }

  predicate AllSpace(s: string) {
    forall i :: 0 <= i < |s| ==> IsSpace(s[i])
  }

  predicate NoSpace(s: string) {
    forall i :: 0 <= i < |s| ==> !IsSpace(s[i])
  }

  lemma AllSpaceCat(a: string, b: string)
    requires AllSpace(a) && AllSpace(b)
    ensures AllSpace(a + b)
  {
  }

  /** A string `trim` leaves alone: empty, or without white space at either end. */
  predicate Trimmed(s: string) {
    s == [] || (!IsSpace(s[0]) && !IsSpace(s[|s| - 1]))
  }

  // ---------------------------------------------------------------- trim

  /** The length of the leading white-space run. */
  function Lead(s: string): (n: nat)
    ensures n <= |s| && AllSpace(s[..n])
    ensures n < |s| ==> !IsSpace(s[n])
  {
    if |s| > 0 && IsSpace(s[0]) then
      var m := Lead(s[1..]);
      assert s[..m + 1] == [s[0]] + s[1..][..m];
      m + 1
    else
      0
  }

  /** The length of the trailing white-space run. */
  function Trail(s: string): (n: nat)
    ensures n <= |s| && AllSpace(s[|s| - n..])
    ensures n < |s| ==> !IsSpace(s[|s| - n - 1])
  {
    if |s| > 0 && IsSpace(s[|s| - 1]) then
      var m := Trail(s[..|s| - 1]);
      TrailStep(s, m);
      m + 1
    else
      0
  }

  /** A trailing white-space run of the text without its last character,
      extended by that last white-space character. */
  lemma TrailStep(s: string, m: nat)
    requires |s| > 0 && IsSpace(s[|s| - 1])
    requires m <= |s| - 1 && AllSpace(s[..|s| - 1][|s| - 1 - m..])
    requires m < |s| - 1 ==> !IsSpace(s[..|s| - 1][|s| - 2 - m])
    ensures AllSpace(s[|s| - m - 1..])
    ensures m + 1 < |s| ==> !IsSpace(s[|s| - m - 2])
  {
    var t := s[..|s| - 1];
    var run := t[|t| - m..];
    var u := s[|s| - m - 1..];
    forall i | 0 <= i < |u| ensures IsSpace(u[i]) {
      if i < m { assert u[i] == run[i]; }
    }
    if m + 1 < |s| { assert s[|s| - m - 2] == t[|t| - m - 1]; }
  }

  /** `String.prototype.trim`: the text between the leading and the trailing
      run of white space. */
  function Trim(s: string): (r: string)
    ensures Trimmed(r)
    ensures Lead(s) + |r| <= |s| && s[Lead(s)..Lead(s) + |r|] == r
    ensures AllSpace(s[Lead(s) + |r|..])
  {
    var a := Lead(s);
    var t := s[a..];
    var b := Trail(t);
    TrimCut(s, a, b);
    t[..|t| - b]
  }

  /** Cutting a leading run of `a` and, after it, a trailing run of `b`
      characters leaves a text without white space at either end. */
  lemma TrimCut(s: string, a: nat, b: nat)
    requires a <= |s| && (a < |s| ==> !IsSpace(s[a]))
    requires b <= |s| - a && AllSpace(s[a..][|s| - a - b..])
    requires b < |s| - a ==> !IsSpace(s[a..][|s| - a - b - 1])
    ensures var r := s[a..][..|s| - a - b];
            Trimmed(r) && s[a..a + |r|] == r && AllSpace(s[a + |r|..])
  {
    var t := s[a..];
    var r := t[..|t| - b];
    if r != [] {
      assert r[0] == s[a];
      assert r[|r| - 1] == t[|t| - b - 1];
    }
    assert s[a + |r|..] == t[|t| - b..];
  }

  /** White space in front of a text adds its length to the leading run. */
  lemma {:induction false} LeadSpaces(w: string, y: string)
    requires AllSpace(w)
    ensures Lead(w + y) == |w| + Lead(y)
  {
    if w != [] {
      assert (w + y)[0] == w[0];
      assert (w + y)[1..] == w[1..] + y;
      LeadSpaces(w[1..], y);
    } else {
      assert w + y == y;
    }
  }

  /** White space after a text adds its length to the trailing run. */
  lemma {:induction false} TrailSpaces(y: string, w: string)
    requires AllSpace(w)
    ensures Trail(y + w) == Trail(y) + |w|
  {
    if w != [] {
      assert (y + w)[|y + w| - 1] == w[|w| - 1];
      assert (y + w)[..|y + w| - 1] == y + w[..|w| - 1];
      TrailSpaces(y, w[..|w| - 1]);
    } else {
      assert y + w == y;
    }
  }

  /** White space around a trimmed text is exactly what `trim` removes. */
  lemma TrimAround(w: string, x: string, w': string)
    requires AllSpace(w) && AllSpace(w') && Trimmed(x)
    ensures Trim(w + x + w') == x
  {
    var s := w + x + w';
    assert s == w + (x + w');
    LeadSpaces(w, x + w');
    if x == [] {
      assert x + w' == w' + [];
      LeadSpaces(w', []);
      assert Lead(s) == |s|;
    } else {
      assert (x + w')[0] == x[0];
      assert Lead(s) == |w|;
      assert s[|w|..] == x + w';
      TrailSpaces(x, w');
      assert Trail(x) == 0;
      assert (x + w')[..|x|] == x;
    }
  }

  lemma TrimTrimmed(x: string)
    requires Trimmed(x)
    ensures Trim(x) == x
  {
    TrimAround([], x, []);
    assert [] + x + [] == x;
  }

  /** The leading run stops at a character that is not white space. */
  lemma LeadStops(s: string)
    ensures Lead(s) < |s| ==> !AllSpace(s[Lead(s)..])
  {
    var a := Lead(s);
    if a < |s| { assert s[a..][0] == s[a]; }
  }

  /** A text made only of white space trims to the empty string. */
  lemma TrimAllSpace(w: string)
    requires AllSpace(w)
    ensures Trim(w) == []
  {
    TrimAround(w, [], []);
    assert w + [] + [] == w;
  }

  /** Only a text made entirely of white space trims to the empty string. */
  lemma TrimEmptyOnlyIfSpace(s: string)
    requires Trim(s) == []
    ensures AllSpace(s)
  {
    var a := Lead(s);
    LeadStops(s);
    assert s[..a] == s;
  }

  /** `trim` only removes characters, so a character absent from the text is
      absent from its trimmed form. */
  lemma TrimLacks(s: string, c: char)
    requires c !in s
    ensures c !in Trim(s)
  {
    var r := Trim(s);
    var a := Lead(s);
    forall i | 0 <= i < |r| ensures r[i] != c {
      assert r[i] == s[a + i];
    }
  }

  // ------------------------------------------------------- indexOf, includes

  /** `pat` occurs in `s` starting at index `i`. */
  predicate OccursAt(s: string, pat: string, i: int) {
    0 <= i && i + |pat| <= |s| && s[i..i + |pat|] == pat
  }

  predicate StartsWith(s: string, prefix: string) {
    |prefix| <= |s| && s[..|prefix|] == prefix
  }

  /** `s.indexOf(pat)`: the first index at which `pat` occurs, if any. */
  function IndexOf(s: string, pat: string): (r: Option<nat>)
    ensures r.Some? ==> OccursAt(s, pat, r.value)
    ensures r.Some? ==> forall i :: 0 <= i < r.value ==> !OccursAt(s, pat, i)
    ensures r.None? ==> forall i :: 0 <= i <= |s| ==> !OccursAt(s, pat, i)
    decreases |s|
  {
    if StartsWith(s, pat) then Some(0)
    else if |s| == 0 then None
    else
      var rest := IndexOf(s[1..], pat);
      assert forall i :: 1 <= i <= |s| ==> (OccursAt(s, pat, i) <==> OccursAt(s[1..], pat, i - 1)) by {
        forall i | 1 <= i <= |s| ensures OccursAt(s, pat, i) <==> OccursAt(s[1..], pat, i - 1) {
          if i + |pat| <= |s| { assert s[1..][i - 1..i - 1 + |pat|] == s[i..i + |pat|]; }
        }
      }
      match rest
      case None => None
      case Some(k) => Some(k + 1)
  }

  /** `s.includes(pat)`. */
  predicate Contains(s: string, pat: string) {
    IndexOf(s, pat).Some?
  }

  lemma ContainsIff(s: string, pat: string)
    ensures Contains(s, pat) <==> exists i :: OccursAt(s, pat, i)
  {
    if !Contains(s, pat) {
      forall i | OccursAt(s, pat, i) ensures false { }
    }
  }

  /** A one-character pattern occurs exactly where that character is. */
  lemma OccursChar(s: string, c: char, i: int)
    ensures OccursAt(s, [c], i) <==> (0 <= i < |s| && s[i] == c)
  {
    if 0 <= i < |s| { assert s[i..i + 1] == [s[i]]; }
  }

  lemma ContainsChar(s: string, c: char)
    ensures Contains(s, [c]) <==> c in s
  {
    ContainsIff(s, [c]);
    if c in s {
      var i :| 0 <= i < |s| && s[i] == c;
      OccursChar(s, c, i);
    }
    if Contains(s, [c]) {
      var i :| OccursAt(s, [c], i);
      OccursChar(s, c, i);
    }
  }

  /** An index moved `d` places to the right; no index stays none. */
  function ShiftBy(o: Option<nat>, d: nat): Option<nat> {
    match o
    case None => None
    case Some(i) => Some(d + i)
  }

  lemma ShiftTwice(o: Option<nat>, a: nat, b: nat)
    ensures ShiftBy(ShiftBy(o, a), b) == ShiftBy(o, a + b)
  {
  }

  /** A prefix that cannot start an occurrence of `pat` only shifts its index. */
  lemma {:induction false} IndexOfSkip(x: string, y: string, pat: string)
    requires |pat| > 0 && pat[0] !in x
    ensures IndexOf(x + y, pat) == ShiftBy(IndexOf(y, pat), |x|)
  {
    if x != [] {
      assert x + y == [x[0]] + (x[1..] + y);
      IndexOfSkip(x[1..], y, pat);
      IndexOfStep(x[0], x[1..] + y, pat);
      ShiftTwice(IndexOf(y, pat), |x| - 1, 1);
    } else {
      assert x + y == y;
    }
  }

  /** A text whose first character differs from the pattern's does not start with it. */
  lemma NoStartWith(s: string, pat: string)
    requires |s| > 0 && |pat| > 0 && s[0] != pat[0]
    ensures !StartsWith(s, pat)
  {
    if |pat| <= |s| { assert s[..|pat|][0] == s[0]; }
  }

  /** Where `pat` does not start with the first character, its index is one
      past its index in the tail. */
  lemma IndexOfStep(c: char, rest: string, pat: string)
    requires |pat| > 0 && c != pat[0]
    ensures IndexOf([c] + rest, pat) == ShiftBy(IndexOf(rest, pat), 1)
  {
    var s := [c] + rest;
    NoStartWith(s, pat);
    assert s[1..] == rest;
  }

  /** `pat` cannot occur in a text that lacks its first character. */
  lemma IndexOfAbsent(y: string, pat: string)
    requires |pat| > 0 && pat[0] !in y
    ensures IndexOf(y, pat) == None
  {
    IndexOfSkip(y, [], pat);
    assert y + [] == y;
  }

  // ------------------------------------------------------------ split, join

  /** `s.split(sep)` for a non-empty string separator: the pieces between the
      non-overlapping occurrences of `sep`, scanned left to right. */
  function Split(s: string, sep: string): (r: seq<string>)
    requires |sep| > 0
    ensures |r| >= 1
    ensures |r| == 1 <==> !Contains(s, sep)
    decreases |s|
  {
    match IndexOf(s, sep)
    case None => [s]
    case Some(i) => [s[..i]] + Split(s[i + |sep|..], sep)
  }

  /** `xs.join(sep)`. */
  function Join(xs: seq<string>, sep: string): string {
    if |xs| == 0 then ""
    else if |xs| == 1 then xs[0]
    else xs[0] + sep + Join(xs[1..], sep)
  }

  /** Joining the pieces of a split with the same separator restores the text. */
  lemma {:induction false} JoinSplit(s: string, sep: string)
    requires |sep| > 0
    ensures Join(Split(s, sep), sep) == s
    decreases |s|
  {
    match IndexOf(s, sep)
    case None =>
    case Some(i) =>
      var rest := s[i + |sep|..];
      JoinSplit(rest, sep);
      JoinCons(s[..i], Split(rest, sep), sep);
      SplitAround(s, sep, i);
  }

  /** A text with one separator, after a head that cannot start it, splits in two. */
  lemma SplitOnce(head: string, sep: string, rest: string)
    requires |sep| > 0 && sep[0] !in head && IndexOf(rest, sep) == None
    ensures Split(head + sep + rest, sep) == [head, rest]
  {
    var s := head + sep + rest;
    assert s == head + (sep + rest);
    assert IndexOf(s, sep) == Some(|head|) by {
      IndexOfSkip(head, sep + rest, sep);
      assert StartsWith(sep + rest, sep);
    }
    assert s[..|head|] == head;
    assert s[|head| + |sep|..] == rest;
  }

  /** A head that cannot start the separator is the first piece of the split. */
  lemma SplitHead(head: string, sep: string, rest: string)
    requires |sep| > 0 && sep[0] !in head
    ensures Split(head + sep + rest, sep) == [head] + Split(rest, sep)
  {
    var s := head + sep + rest;
    assert s == head + (sep + rest);
    assert IndexOf(s, sep) == Some(|head|) by {
      IndexOfSkip(head, sep + rest, sep);
      assert StartsWith(sep + rest, sep);
    }
    assert s[..|head|] == head;
    assert s[|head| + |sep|..] == rest;
  }

  /** An occurrence of `sep` cuts the text into the part before, `sep` and the rest. */
  lemma SplitAround(s: string, sep: string, i: nat)
    requires OccursAt(s, sep, i)
    ensures s == s[..i] + sep + s[i + |sep|..]
  {
    assert s[i..i + |sep|] == sep;
    assert s == s[..i] + s[i..i + |sep|] + s[i + |sep|..];
  }

  /** Joining a head onto a non-empty list puts the separator between them. */
  lemma JoinCons(x: string, xs: seq<string>, sep: string)
    requires |xs| >= 1
    ensures Join([x] + xs, sep) == x + sep + Join(xs, sep)
  {
    assert ([x] + xs)[1..] == xs;
  }

  /** No piece of a split on a character contains that character. */
  lemma {:induction false} SplitPiecesLackSep(s: string, c: char)
    ensures forall k :: 0 <= k < |Split(s, [c])| ==> c !in Split(s, [c])[k]
    decreases |s|
  {
    var r := Split(s, [c]);
    match IndexOf(s, [c])
    case None =>
      assert r == [s];
      PrefixLacksChar(s, c);
    case Some(i) =>
      var tail := Split(s[i + 1..], [c]);
      assert r == [s[..i]] + tail;
      SplitPiecesLackSep(s[i + 1..], c);
      PrefixLacksChar(s, c);
      forall k | 0 <= k < |r| ensures c !in r[k] {
        if k > 0 { assert r[k] == tail[k - 1]; }
      }
  }

  /** Splitting a join on a character absent from every part recovers the parts. */
  lemma {:induction false} SplitJoin(xs: seq<string>, c: char)
    requires |xs| >= 1
    requires forall k :: 0 <= k < |xs| ==> c !in xs[k]
    ensures Split(Join(xs, [c]), [c]) == xs
  {
    if |xs| == 1 {
      ContainsChar(xs[0], c);
    } else {
      var tail := Join(xs[1..], [c]);
      IndexOfSkip(xs[0], [c] + tail, [c]);
      assert Join(xs, [c]) == xs[0] + ([c] + tail);
      assert IndexOf([c] + tail, [c]) == Some(0);
      var s := Join(xs, [c]);
      assert s[..|xs[0]|] == xs[0];
      assert s[|xs[0]| + 1..] == tail;
      SplitJoin(xs[1..], c);
    }
  }

  /** Nothing before the first occurrence of a character is that character. */
  lemma PrefixLacksChar(s: string, c: char)
    ensures IndexOf(s, [c]).Some? ==> c !in s[..IndexOf(s, [c]).value]
    ensures IndexOf(s, [c]).None? ==> c !in s
  {
    match IndexOf(s, [c])
    case None =>
      ContainsChar(s, c);
    case Some(i) =>
      forall j | 0 <= j < i ensures s[..i][j] != c {
        OccursChar(s, c, j);
      }
  }

  /** An occurrence of `pat` carries an occurrence of each of its characters. */
  lemma ContainsPart(s: string, pat: string, k: nat)
    requires Contains(s, pat) && k < |pat|
    ensures Contains(s, [pat[k]])
  {
    var i := IndexOf(s, pat).value;
    assert s[i + k] == pat[k] by { assert s[i..i + |pat|][k] == s[i + k]; }
    OccursChar(s, pat[k], i + k);
    ContainsIff(s, [pat[k]]);
  }

  /** The first index holding `x` is the one `Find` reports. */
  lemma FindFirst<T>(xs: seq<T>, x: T, i: nat)
    requires i < |xs| && xs[i] == x && x !in xs[..i]
    ensures Find(xs, x) == Some(i)
  {
    var j := Find(xs, x).value;
    assert xs[..j + 1][j] == x;
    assert xs[..i + 1][i] == x;
  }

  /** `xs.indexOf(x)` on an array: the first index holding `x`. */
  function Find<T(==)>(xs: seq<T>, x: T): (r: Option<nat>)
    ensures r.Some? ==> r.value < |xs| && xs[r.value] == x && x !in xs[..r.value]
    ensures r.None? <==> x !in xs
  {
    if xs == [] then None
    else if xs[0] == x then Some(0)
    else match Find(xs[1..], x)
      case None => None
      case Some(i) => assert xs[..i + 1] == [xs[0]] + xs[1..][..i]; Some(i + 1)
  }

  // --------------------------------------------------------- split(/\s+/)

  /** Index of the first white-space character. */
  function FirstSpace(s: string): (r: Option<nat>)
    ensures r.Some? ==> r.value < |s| && IsSpace(s[r.value]) && NoSpace(s[..r.value])
    ensures r.None? ==> NoSpace(s)
  {
    if s == [] then None
    else if IsSpace(s[0]) then Some(0)
    else match FirstSpace(s[1..])
      case None => None
      case Some(i) => Some(i + 1)
  }

  /** Length of the run of white space at the start of `s`. */
  function SpaceRun(s: string): (n: nat)
    ensures n <= |s| && AllSpace(s[..n])
    ensures n == |s| || !IsSpace(s[n])
  {
    if s != [] && IsSpace(s[0]) then 1 + SpaceRun(s[1..]) else 0
  }

  /** `s.split(/\s+/)`: the pieces between maximal runs of white space; a
      leading or trailing run yields an empty first or last piece. */
  function SplitWs(s: string): (r: seq<string>)
    ensures |r| >= 1
    ensures forall k :: 0 <= k < |r| ==> NoSpace(r[k])
    decreases |s|
  {
    match FirstSpace(s)
    case None => [s]
    case Some(i) =>
      var j := i + SpaceRun(s[i..]);
      [s[..i]] + SplitWs(s[j..])
  }

  /** Words with no white space, joined by single spaces, split back apart. */
  lemma {:induction false} SplitWsJoin(ws: seq<string>)
    requires |ws| >= 1
    requires forall k :: 0 <= k < |ws| ==> ws[k] != [] && NoSpace(ws[k])
    ensures SplitWs(Join(ws, " ")) == ws
  {
    if |ws| > 1 {
      var tail := Join(ws[1..], " ");
      JoinHead(ws[1..], " ");
      SplitWsCons(ws[0], tail);
      SplitWsJoin(ws[1..]);
    }
  }

  /** A word, one space and a text that starts with no blank split at that space. */
  lemma SplitWsCons(w: string, tail: string)
    requires NoSpace(w) && tail != [] && !IsSpace(tail[0])
    ensures SplitWs(w + " " + tail) == [w] + SplitWs(tail)
  {
    var s := w + " " + tail;
    assert s == w + (" " + tail);
    FirstSpaceAfter(w, " " + tail);
    assert s[|w|..] == " " + tail;
    assert SpaceRun(" " + tail) == 1 by {
      assert (" " + tail)[1..] == tail;
    }
    assert s[..|w|] == w;
    assert s[|w| + 1..] == tail;
  }

  lemma FirstSpaceAfter(x: string, y: string)
    requires NoSpace(x) && y != [] && IsSpace(y[0])
    ensures FirstSpace(x + y) == Some(|x|)
    decreases |x|
  {
    if x != [] {
      assert (x + y)[1..] == x[1..] + y;
      FirstSpaceAfter(x[1..], y);
    }
  }

  /** Joining one more part appends the separator and that part. */
  lemma {:induction false} JoinSnoc(xs: seq<string>, x: string, sep: string)
    requires |xs| >= 1
    ensures Join(xs + [x], sep) == Join(xs, sep) + sep + x
  {
    if |xs| > 1 {
      assert (xs + [x])[1..] == xs[1..] + [x];
      JoinSnoc(xs[1..], x, sep);
    }
  }

  /** A join ends with its last part when that part is non-empty. */
  lemma {:induction false} LastOfJoin(xs: seq<string>, sep: string)
    requires |xs| >= 1 && xs[|xs| - 1] != []
    ensures var j := Join(xs, sep); var l := xs[|xs| - 1];
            |j| >= |l| && j[|j| - |l|..] == l
  {
    if |xs| > 1 {
      LastOfJoin(xs[1..], sep);
      assert Join(xs, sep) == xs[0] + sep + Join(xs[1..], sep);
    }
  }
  /** A join whose first part is non-empty starts with that part. */
  lemma JoinHead(xs: seq<string>, sep: string)
    requires |xs| >= 1 && xs[0] != []
    ensures Join(xs, sep) != [] && Join(xs, sep)[0] == xs[0][0]
  {
  }

  // ------------------------------------------------------- other built-ins

  /** `s.replace(pat, rep)` with a string pattern: only the first occurrence. */
  function ReplaceFirst(s: string, pat: string, rep: string): (r: string)
    ensures !Contains(s, pat) ==> r == s
    ensures Contains(s, pat) ==>
      exists i :: OccursAt(s, pat, i) && r == s[..i] + rep + s[i + |pat|..]
                  && forall j :: 0 <= j < i ==> !OccursAt(s, pat, j)
  {
    match IndexOf(s, pat)
    case None => s
    case Some(i) => s[..i] + rep + s[i + |pat|..]
  }

  /** Every character of `s` except those `drop` selects, in order. */
  function Without(s: string, drop: char -> bool): (r: string)
    ensures forall i :: 0 <= i < |r| ==> !drop(r[i])
    ensures |r| <= |s|
    ensures (forall i :: 0 <= i < |s| ==> !drop(s[i])) ==> r == s
    ensures (forall i :: 0 <= i < |s| ==> drop(s[i])) ==> r == []
  {
    if s == [] then []
    else (if drop(s[0]) then [] else [s[0]]) + Without(s[1..], drop)
  }

  lemma {:induction false} WithoutKeeps(s: string, drop: char -> bool)
    requires forall i :: 0 <= i < |s| ==> !drop(s[i])
    ensures Without(s, drop) == s
  {
    if s != [] { WithoutKeeps(s[1..], drop); }
  }

  /** Deleting characters distributes over concatenation: together with the
      one-character cases above this fixes every character of the result. */
  lemma {:induction false} WithoutAppend(a: string, b: string, drop: char -> bool)
    ensures Without(a + b, drop) == Without(a, drop) + Without(b, drop)
  {
    if a != [] {
      assert a == [a[0]] + a[1..];
      assert a + b == [a[0]] + (a[1..] + b);
      WithoutCons(a[0], a[1..] + b, drop);
      WithoutCons(a[0], a[1..], drop);
      WithoutAppend(a[1..], b, drop);
    } else {
      assert a + b == b;
    }
  }

  /** The first character is kept or dropped on its own. */
  lemma WithoutCons(c: char, t: string, drop: char -> bool)
    ensures Without([c] + t, drop) == (if drop(c) then [] else [c]) + Without(t, drop)
  {
    assert ([c] + t)[0] == c && ([c] + t)[1..] == t;
  }

  /** Deleting characters from glued pieces is gluing the cleaned pieces. */
  lemma {:induction false} WithoutJoin(xs: seq<string>, drop: char -> bool)
    ensures Without(Join(xs, ""), drop) == Join(WithoutEach(xs, drop), "")
  {
    if |xs| > 1 {
      assert Join(xs, "") == xs[0] + Join(xs[1..], "");
      WithoutAppend(xs[0], Join(xs[1..], ""), drop);
      WithoutJoin(xs[1..], drop);
      assert WithoutEach(xs, drop)[1..] == WithoutEach(xs[1..], drop);
    }
  }

  /** Each piece with the selected characters deleted. */
  function WithoutEach(xs: seq<string>, drop: char -> bool): (ys: seq<string>)
    ensures |ys| == |xs|
    ensures forall k :: 0 <= k < |xs| ==> ys[k] == Without(xs[k], drop)
  {
    seq(|xs|, k requires 0 <= k < |xs| => Without(xs[k], drop))
  }

  /** `toLowerCase`, restricted to ASCII letters. */
  function ToLower(s: string): (r: string)
    ensures |r| == |s|
    ensures forall i :: 0 <= i < |s| ==> r[i] == (if 'A' <= s[i] <= 'Z' then s[i] - 'A' + 'a' else s[i])
  {
    if s == [] then []
    else [if 'A' <= s[0] <= 'Z' then s[0] - 'A' + 'a' else s[0]] + ToLower(s[1..])
  }

  /** Decimal rendering of a natural number, as string concatenation shows it. */
  function NatToString(n: nat): (r: string)
    ensures |r| >= 1
    ensures forall i :: 0 <= i < |r| ==> '0' <= r[i] <= '9'
    ensures n < 10 <==> |r| == 1
    ensures DecimalValue(r) == n
  {
    if n < 10 then [('0' as int + n) as char]
    else
      var hi := NatToString(n / 10);
      var r := hi + [('0' as int + n % 10) as char];
      assert r[..|r| - 1] == hi;
      r
  }

  /** The number a string of decimal digits denotes; any other character
      counts as a zero digit. */
  function DecimalValue(s: string): nat {
    if s == [] then 0
    else
      var c := s[|s| - 1];
      10 * DecimalValue(s[..|s| - 1]) + (if '0' <= c <= '9' then c as int - '0' as int else 0)
  }

  /** Distinct numbers are written differently. */
  lemma NatToStringInjective(m: nat, n: nat)
    ensures NatToString(m) == NatToString(n) ==> m == n
  {
  }

  /** The mark after a digit string is its first occurrence. */
  lemma MarkFirst(x: string, y: string, mark: char)
    requires forall i :: 0 <= i < |x| ==> '0' <= x[i] <= '9'
    requires !('0' <= mark <= '9')
    ensures (x + [mark] + y)[|x|] == mark
    ensures forall i :: 0 <= i < |x| ==> (x + [mark] + y)[i] != mark
  {
  }

  /** A digit string followed by a non-digit mark is recovered from the text:
      the mark's first position ends the digits. */
  lemma {:induction false} DigitsBeforeMark(x: string, y: string, x': string, y': string, mark: char)
    requires forall i :: 0 <= i < |x| ==> '0' <= x[i] <= '9'
    requires forall i :: 0 <= i < |x'| ==> '0' <= x'[i] <= '9'
    requires !('0' <= mark <= '9')
    requires x + [mark] + y == x' + [mark] + y'
    ensures x == x' && y == y'
  {
    var t := x + [mark] + y;
    MarkFirst(x, y, mark);
    MarkFirst(x', y', mark);
    assert x == t[..|x|] == x';
    assert y == t[|x| + 1..] == y';
  }

  function Reverse<T>(xs: seq<T>): (r: seq<T>)
    ensures |r| == |xs|
    ensures forall i :: 0 <= i < |xs| ==> r[i] == xs[|xs| - 1 - i]
  {
    if xs == [] then [] else Reverse(xs[1..]) + [xs[0]]
  }

  lemma ReverseReverse<T>(xs: seq<T>)
    ensures Reverse(Reverse(xs)) == xs
  {
  }

  lemma {:induction false} ReverseMultiset<T>(xs: seq<T>)
    ensures multiset(Reverse(xs)) == multiset(xs)
  {
    if xs != [] {
      ReverseMultiset(xs[1..]);
      assert xs == [xs[0]] + xs[1..];
    }
  }
}
