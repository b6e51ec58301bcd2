/** The main loop of VowelsRUs over lines that have already been read: empty
    lines are skipped, every other line is upper-cased and split at its first
    whitespace run into a word and a suffix, and each pair is turned into an
    entry holding the word, the suffix, its plural and its suffixed form. A
    line that cannot be processed stops the run; the entries produced before it
    are kept. */
module LineInput {
  import opened VowelsRUs

  datatype Option<T> = None | Some(value: T)

  /** Whitespace as Java regular expressions define `\s`: space, tab, line feed,
      vertical tab, form feed and carriage return. */
  predicate IsWhitespace(c: char) {
    c == ' ' || c == '\t' || c == '\n' || c == '\U{000B}' || c == '\U{000C}' || c == '\r'
  }

  predicate NoWhitespace(s: seq<char>) {
    forall k :: 0 <= k < |s| ==> !IsWhitespace(s[k])
  }

  predicate AllWhitespace(s: seq<char>) {
    forall k :: 0 <= k < |s| ==> IsWhitespace(s[k])
  }

  /** Upper case of one character, for the ASCII letters a-z only. */
  function UpperChar(c: char): char {
    if 'a' <= c <= 'z' then (c as int - 32) as char else c
  }

  /** Upper case of a line, character by character. */
  function ToUpper(s: seq<char>): (u: seq<char>)
    ensures |u| == |s|
    ensures forall k :: 0 <= k < |s| ==> u[k] == UpperChar(s[k])
    ensures forall k :: 0 <= k < |s| ==> !('a' <= u[k] <= 'z')
    ensures forall k :: 0 <= k < |s| ==> IsWhitespace(u[k]) == IsWhitespace(s[k])
  {
    seq(|s|, k requires 0 <= k < |s| => UpperChar(s[k]))
  }

  /** The first index at or after `from` whose character is whitespace when `ws`
      holds (not whitespace otherwise), or |s| when there is none. */
  function Scan(s: seq<char>, from: nat, ws: bool): (i: nat)
    requires from <= |s|
    ensures from <= i <= |s|
    ensures forall k :: from <= k < i ==> IsWhitespace(s[k]) != ws
    ensures i < |s| ==> IsWhitespace(s[i]) == ws
    decreases |s| - from
  {
    if from == |s| || IsWhitespace(s[from]) == ws then from else Scan(s, from + 1, ws)
  }

  /** `line` is `a`, then a non-empty whitespace run, then `b`, where `a` holds no
      whitespace and `b` does not start with whitespace. */
  predicate SplitsAs(line: seq<char>, a: seq<char>, b: seq<char>) {
    |a| + |b| < |line| &&
    line[..|a|] == a && line[|line| - |b|..] == b &&
    NoWhitespace(a) && AllWhitespace(line[|a|..|line| - |b|]) &&
    (b == [] || !IsWhitespace(b[0]))
  }

  /** Splitting a line on whitespace runs into at most two tokens, as Java's
      `split("\\s+", 2)` does: a line without whitespace is one token; otherwise
      the tokens are what precedes the first whitespace run (empty when the line
      starts with whitespace) and everything after that run (empty when the line
      ends with it, and free to hold more whitespace). */
  function SplitOnce(line: seq<char>): (tok: seq<seq<char>>)
    ensures 1 <= |tok| <= 2
    ensures |tok| == 1 <==> NoWhitespace(line)
    ensures |tok| == 1 ==> tok[0] == line
    ensures |tok| == 2 ==> SplitsAs(line, tok[0], tok[1])
  {
    var i := Scan(line, 0, true);
    if i == |line| then
      [line]
    else
      var j := Scan(line, i, false);
      assert line[i..j] == line[i..|line| - |line[j..]|];
      [line[..i], line[j..]]
  }

  /** A split is unique: whenever a line splits as `a`, whitespace, `b`, those are
      the two tokens. */
  lemma SplitOnceUnique(line: seq<char>, a: seq<char>, b: seq<char>)
    requires SplitsAs(line, a, b)
    ensures SplitOnce(line) == [a, b]
  {
    var m := |line| - |b|;
    assert line[|a|] == line[|a|..m][0];
    forall k | 0 <= k < |a| ensures !IsWhitespace(line[k]) {
      assert line[k] == a[k];
    }
    ScanStopsAt(line, 0, true, |a|);
    forall k | |a| <= k < m ensures IsWhitespace(line[k]) {
      assert line[k] == line[|a|..m][k - |a|];
    }
    if m < |line| {
      assert line[m] == b[0];
    }
    ScanStopsAt(line, |a|, false, m);
  }

  /** The split has limit 2: the suffix is the rest of the line after the first
      whitespace run, spaces included. */
  lemma SplitKeepsRestOfLine()
    ensures SplitOnce("AB  CD EF") == ["AB", "CD EF"]
    ensures SplitOnce(" AB") == ["", "AB"]
    ensures SplitOnce("AB ") == ["AB", ""]
  {
    SplitOnceUnique("AB  CD EF", "AB", "CD EF");
    SplitOnceUnique(" AB", "", "AB");
    SplitOnceUnique("AB ", "AB", "");
  }

  /** A line that starts with whitespace splits into an empty word and the rest
      of the line after that first run. */
  lemma SplitLeadingWhitespace(line: seq<char>)
    requires |line| > 0 && IsWhitespace(line[0])
    ensures |SplitOnce(line)| == 2 && SplitOnce(line)[0] == []
  {
  }

  /** A line whose only whitespace is one run at its end splits into the text
      before that run and an empty suffix. */
  lemma SplitTrailingWhitespace(a: seq<char>, gap: seq<char>)
    requires NoWhitespace(a) && gap != [] && AllWhitespace(gap)
    ensures SplitOnce(a + gap) == [a, []]
  {
    var line := a + gap;
    assert line[..|a|] == a;
    assert line[|line|..] == [];
    assert line[|a|..|line|] == gap;
    SplitOnceUnique(line, a, []);
  }

  /** Scan stops at the first index where the character has the kind sought. */
  lemma ScanStopsAt(s: seq<char>, from: nat, ws: bool, m: nat)
    requires from <= m <= |s|
    requires forall k :: from <= k < m ==> IsWhitespace(s[k]) != ws
    requires m < |s| ==> IsWhitespace(s[m]) == ws
    ensures Scan(s, from, ws) == m
  {
  }

  /** Why a line could not be processed: it held no whitespace, so it has no
      suffix; its word is shorter than two characters; or its suffix is empty
      where its first letter is needed. */
  datatype Fault = MalformedLine | WordTooShort | EmptySuffix

  /** A fault, with the index of the line that caused it. */
  datatype Failure = Failure(line: nat, fault: Fault)

  /** What one word-and-suffix pair produces. */
  datatype Entry = Entry(word: seq<char>, suffix: seq<char>, plural: seq<char>, suffixed: seq<char>)

  datatype Result<T> = Ok(value: T) | Err(fault: Fault)

  /** The forms computed for a word and a suffix before they are printed. */
  function Transform(word: seq<char>, suffix: seq<char>): (r: Result<Entry>)
    ensures r == Err(WordTooShort) <==> |word| < 2
    ensures r == Err(EmptySuffix) <==> |word| >= 2 && suffix == [] && GetEnding(word) != OneConsonant
    ensures r.Ok? <==> |word| >= 2 && (suffix != [] || GetEnding(word) == OneConsonant)
    ensures r.Ok? ==> r.value.word == word && r.value.suffix == suffix
    ensures r.Ok? ==>
              r.value.plural == GetPlural(word, GetEnding(word)) &&
              r.value.suffixed == GetSuffixed(word, suffix, GetEnding(word))
  {
    if |word| < 2 then
      Err(WordTooShort)
    else
      var e := GetEnding(word);
      if e != OneConsonant && suffix == [] then
        Err(EmptySuffix)
      else
        Ok(Entry(word, suffix, GetPlural(word, e), GetSuffixed(word, suffix, e)))
  }

  /** What one line read from the input produces. */
  datatype LineResult = Skip | Emit(entry: Entry) | Stop(fault: Fault)

  /** One pass of the main loop's body over a line read: an empty line is
      skipped; any other is upper-cased and split, a line without whitespace
      stops the run, and the two tokens are transformed. */
  function ProcessLine(line: seq<char>): (r: LineResult)
    ensures r == Skip <==> line == []
    ensures r == Stop(MalformedLine) <==> line != [] && NoWhitespace(line)
  {
    if line == [] then
      Skip
    else
      var tok := SplitOnce(ToUpper(line));
      if |tok| != 2 then
        Stop(MalformedLine)
      else
        match Transform(tok[0], tok[1])
        case Ok(x) => Emit(x)
        case Err(f) => Stop(f)
  }

  /** An entry emitted by a line is the transform of the two tokens of the
      upper-cased line, and its word has at least two characters. */
  lemma EmittedLine(line: seq<char>)
    requires ProcessLine(line).Emit?
    ensures var x := ProcessLine(line).entry;
      |x.word| >= 2 && SplitsAs(ToUpper(line), x.word, x.suffix) && Transform(x.word, x.suffix) == Ok(x)
  {
  }

  /** Every non-empty line with whitespace is processed: its upper-cased text
      splits as `a`, whitespace, `b`, and the line emits the entry of that pair,
      or stops with the fault of that pair. */
  lemma ProcessLineBySplit(line: seq<char>, a: seq<char>, b: seq<char>)
    requires line != [] && SplitsAs(ToUpper(line), a, b)
    ensures ProcessLine(line) == match Transform(a, b) case Ok(x) => Emit(x) case Err(f) => Stop(f)
  {
    SplitOnceUnique(ToUpper(line), a, b);
  }

  /** A line of whitespace alone is not skipped: its word is empty, so it stops
      the run. */
  lemma WhitespaceLineStops(line: seq<char>)
    requires line != [] && AllWhitespace(line)
    ensures ProcessLine(line) == Stop(WordTooShort)
  {
  }

  /** What a run over the lines produces: the entries emitted, in order, and the
      failure that stopped it, if any. */
  datatype Report = Report(entries: seq<Entry>, failure: Option<Failure>)

  /** The report after the line with index `n` is read, given the report before
      it: a failure already met stays as it is (later lines are never read). */
  function Step(prev: Report, n: nat, lr: LineResult): (r: Report)
    ensures prev.failure.Some? ==> r == prev
    ensures prev.failure.None? ==> r.entries == prev.entries + (if lr.Emit? then [lr.entry] else [])
    ensures prev.failure.None? ==> (r.failure.Some? <==> lr.Stop?)
    ensures prev.failure.None? && lr.Stop? ==> r.failure == Some(Failure(n, lr.fault))
  {
    if prev.failure.Some? then
      prev
    else
      match lr
      case Skip => prev
      case Emit(x) => Report(prev.entries + [x], None)
      case Stop(f) => Report(prev.entries, Some(Failure(n, f)))
  }

  /** The report after the first `n` line results, in input order. */
  function Outcome(rs: seq<LineResult>, n: nat): (r: Report)
    requires n <= |rs|
    ensures |r.entries| <= n
    ensures r.failure.Some? ==> r.failure.value.line < n && rs[r.failure.value.line] == Stop(r.failure.value.fault)
  {
    if n == 0 then
      Report([], None)
    else
      Step(Outcome(rs, n - 1), n - 1, rs[n - 1])
  }

  /** The entries emitted by the first `n` line results, in input order,
      regardless of any failure among them. */
  function Emitted(rs: seq<LineResult>, n: nat): seq<Entry>
    requires n <= |rs|
  {
    if n == 0 then []
    else Emitted(rs, n - 1) + (if rs[n - 1].Emit? then [rs[n - 1].entry] else [])
  }

  /** The first `n` line results contain no failure. */
  predicate NoStop(rs: seq<LineResult>, n: nat)
    requires n <= |rs|
  {
    forall k :: 0 <= k < n ==> !rs[k].Stop?
  }

  /** What a run reports: it fails exactly when some line read stops, and then at
      the first such line with that line's fault; its entries are those emitted
      by the lines before that one (all lines read, when nothing stops), in
      input order. */
  lemma {:induction false} OutcomeCharacterized(rs: seq<LineResult>, n: nat)
    requires n <= |rs|
    ensures Outcome(rs, n).failure.None? <==> NoStop(rs, n)
    ensures Outcome(rs, n).failure.Some? ==>
              var k := Outcome(rs, n).failure.value.line;
              k < n && rs[k] == Stop(Outcome(rs, n).failure.value.fault) && NoStop(rs, k)
    ensures Outcome(rs, n).entries ==
              Emitted(rs, if Outcome(rs, n).failure.Some? then Outcome(rs, n).failure.value.line else n)
  {
    if n > 0 {
      OutcomeCharacterized(rs, n - 1);
    }
  }

  /** One more line read by a run that has not failed adds that line's entry,
      or fails at that line with its fault. */
  lemma OutcomeNext(rs: seq<LineResult>, n: nat)
    requires n < |rs| && Outcome(rs, n).failure.None?
    ensures Outcome(rs, n + 1).entries ==
              Outcome(rs, n).entries + (if rs[n].Emit? then [rs[n].entry] else [])
    ensures Outcome(rs, n + 1).failure == if rs[n].Stop? then Some(Failure(n, rs[n].fault)) else None
  {
  }

  /** What each line of the input produces, in order. */
  function LineResults(lines: seq<seq<char>>): (rs: seq<LineResult>)
    ensures |rs| == |lines|
  {
    if lines == [] then [] else LineResults(lines[..|lines| - 1]) + [ProcessLine(lines[|lines| - 1])]
  }

  /** The result of line `k` is what that line alone produces. */
  lemma {:induction false} LineResultAt(lines: seq<seq<char>>, k: nat)
    requires k < |lines|
    ensures LineResults(lines)[k] == ProcessLine(lines[k])
  {
    if k < |lines| - 1 {
      LineResultAt(lines[..|lines| - 1], k);
    }
  }

  /** The body of the main loop for one line: an empty line is skipped, any
      other is upper-cased and split, and its two tokens are transformed. */
  method ReadLine(line: seq<char>) returns (lr: LineResult)
    ensures lr == ProcessLine(line)
  {
    if line == [] {
      return Skip;
    }
    var tok := SplitOnce(ToUpper(line));
    if |tok| != 2 {
      return Stop(MalformedLine);
    }
    ProcessLineBySplit(line, tok[0], tok[1]);
    var t := Transform(tok[0], tok[1]);
    if t.Err? {
      return Stop(t.fault);
    }
    return Emit(t.value);
  }

  /** The main loop over the lines of the input. */
  method Run(lines: seq<seq<char>>) returns (entries: seq<Entry>, failure: Option<Failure>)
    ensures Report(entries, failure) == Outcome(LineResults(lines), |lines|)
  {
    ghost var rs := LineResults(lines);
    entries, failure := [], None;
    var i := 0;
    while i < |lines| && failure.None?
      invariant 0 <= i <= |lines|
      invariant entries == Outcome(rs, i).entries
      invariant failure == Outcome(rs, i).failure
    {
      var lr := ReadLine(lines[i]);
      LineResultAt(lines, i);
      OutcomeNext(rs, i);
      match lr {
        case Skip =>
        case Emit(x) =>
          entries := entries + [x];
        case Stop(f) =>
          failure := Some(Failure(i, f));
      }
      i := i + 1;
    }
    if failure.Some? {
      FailureIsFinal(rs, i, |lines|);
    }
  }

  /** A failure ends the run: no later line changes the report. */
  lemma {:induction false} FailureIsFinal(rs: seq<LineResult>, n: nat, m: nat)
    requires n <= m <= |rs|
    requires Outcome(rs, n).failure.Some?
    ensures Outcome(rs, m) == Outcome(rs, n)
    decreases m
  {
    if n < m {
      FailureIsFinal(rs, n, m - 1);
    }
  }

  /** Lines are handled in input order: what the first `n` lines emit is an
      initial part of what the first `m` lines emit. */
  lemma {:induction false} EntriesInInputOrder(rs: seq<LineResult>, n: nat, m: nat)
    requires n <= m <= |rs|
    ensures Outcome(rs, n).entries <= Outcome(rs, m).entries
    decreases m
  {
    if n < m {
      EntriesInInputOrder(rs, n, m - 1);
    }
  }

  /** Lines that are skipped emit nothing and do not fail. */
  lemma {:induction false} SkippedLinesEmitNothing(rs: seq<LineResult>, n: nat)
    requires n <= |rs|
    requires forall k :: 0 <= k < n ==> rs[k] == Skip
    ensures Outcome(rs, n) == Report([], None)
  {
    if n > 0 {
      SkippedLinesEmitNothing(rs, n - 1);
    }
  }

  /** An input made of empty lines emits nothing and does not fail. */
  lemma BlankLinesEmitNothing(lines: seq<seq<char>>)
    requires forall k :: 0 <= k < |lines| ==> lines[k] == []
    ensures Outcome(LineResults(lines), |lines|) == Report([], None)
  {
    var rs := LineResults(lines);
    forall k | 0 <= k < |lines| ensures rs[k] == Skip {
      LineResultAt(lines, k);
    }
    SkippedLinesEmitNothing(rs, |lines|);
  }

  /** The number of results among the first `n` that are not skips. */
  function NotSkipped(rs: seq<LineResult>, n: nat): nat
    requires n <= |rs|
  {
    if n == 0 then 0
    else NotSkipped(rs, n - 1) + (if rs[n - 1] == Skip then 0 else 1)
  }

  /** A run that does not fail emits exactly one entry per line it does not
      skip, that is, per non-empty line. */
  lemma {:induction false} OneEntryPerLine(rs: seq<LineResult>, n: nat)
    requires n <= |rs|
    requires Outcome(rs, n).failure.None?
    ensures |Outcome(rs, n).entries| == NotSkipped(rs, n)
  {
    if n > 0 {
      OneEntryPerLine(rs, n - 1);
    }
  }

  /** Each entry of a run is the entry emitted by one of the lines read. */
  lemma {:induction false} EntryOrigin(rs: seq<LineResult>, n: nat, i: nat) returns (k: nat)
    requires n <= |rs|
    requires i < |Outcome(rs, n).entries|
    ensures k < n && rs[k] == Emit(Outcome(rs, n).entries[i])
  {
    if i < |Outcome(rs, n - 1).entries| {
      k := EntryOrigin(rs, n - 1, i);
      EntriesInInputOrder(rs, n - 1, n);
    } else {
      k := n - 1;
    }
  }

  /** Every entry of a run comes from a non-empty line whose upper-cased text
      splits into the entry's word and suffix; the word has at least two
      characters and the entry holds its plural and suffixed forms. */
  lemma EntriesAreTransforms(lines: seq<seq<char>>, i: nat) returns (k: nat)
    requires i < |Outcome(LineResults(lines), |lines|).entries|
    ensures k < |lines| && lines[k] != []
    ensures var x := Outcome(LineResults(lines), |lines|).entries[i];
      |x.word| >= 2 && SplitsAs(ToUpper(lines[k]), x.word, x.suffix) &&
      Transform(x.word, x.suffix) == Ok(x)
  {
    k := EntryOrigin(LineResults(lines), |lines|, i);
    LineResultAt(lines, k);
    EmittedLine(lines[k]);
  }
}
