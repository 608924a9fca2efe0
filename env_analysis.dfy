/**
 * The start-up diagnostic that reads the `.env` file line by line
 * (backend/server.js:25-45): each line is trimmed; blank lines and `#`
 * comments are skipped; a line with an `=` is a variable whose key is the
 * trimmed text before the first `=` and whose value is the trimmed rest; any
 * other line is reported as malformed. The number of variables is counted.
 */
module EnvAnalysis {
  import opened Wrappers
  import opened JsStrings

  /** What the diagnostic reports for one line. */
  datatype LineKind = Skipped | MissingEquals | Variable(key: string, value: string)

  /** One reported variable, with the 1-based line number the log shows. */
  datatype Entry = Entry(lineNumber: nat, key: string, value: string)

  /** A line the diagnostic counts: non-blank after trimming, not a comment, containing `=`. */
  predicate IsVariableLine(line: string) {
    var t := Trim(line);
    t != [] && t[0] != '#' && '=' in t
  }

  /**
   * The per-line decision: blank and comment lines are skipped, a line
   * without `=` is malformed, and otherwise the key is the trimmed text before
   * the first `=` and the value the trimmed text after it.
   */
  function ClassifyLine(line: string): LineKind {
    var t := Trim(line);
    if t == [] || t[0] == '#' then Skipped
    else match IndexOf(t, '=')
      case None => MissingEquals
      case Some(i) => Variable(Trim(t[..i]), Trim(t[i + 1..]))
  }

  /** A line is classified as a variable exactly when it is a variable line. */
  lemma ClassifyLineMeaning(line: string)
    ensures ClassifyLine(line).Variable? <==> IsVariableLine(line)
  {
  }

  /**
   * The handler's key/value split of a trimmed line holding `=`: split on
   * `=`, the first piece trimmed is the key, and the other pieces re-joined on
   * `=` and trimmed are the value. The key is the trimmed text before the
   * first `=`, and the value the trimmed text after it.
   */
  function KeyValue(t: string): (kv: (string, string))
    requires '=' in t
    ensures var i := IndexOf(t, '=').value;
      && kv.0 == Trim(t[..i])
      && kv.1 == Trim(t[i + 1..])
      && '=' !in t[..i]
  {
    var parts := Split(t, '=');
    SplitAtFirst(t, '=');
    (Trim(parts[0]), Trim(Join(parts[1..], '=')))
  }

  /** The classification of every line, in order. */
  function Classify(lines: seq<string>): (kinds: seq<LineKind>)
    ensures |kinds| == |lines|
  {
    seq(|lines|, i requires 0 <= i < |lines| => ClassifyLine(lines[i]))
  }

  lemma ClassifySnoc(lines: seq<string>, i: nat)
    requires i < |lines|
    ensures Classify(lines[..i + 1]) == Classify(lines[..i]) + [ClassifyLine(lines[i])]
  {
    var a, b := Classify(lines[..i + 1]), Classify(lines[..i]) + [ClassifyLine(lines[i])];
    forall j | 0 <= j <= i ensures a[j] == b[j] {
      assert lines[..i + 1][j] == lines[j];
      if j < i {
        assert lines[..i][j] == lines[j];
      }
    }
  }

  /** The entries reported for the classified lines, line `i` numbered `i + 1`. */
  function Entries(kinds: seq<LineKind>): seq<Entry> {
    if kinds == [] then []
    else
      var n := |kinds| - 1;
      Entries(kinds[..n]) +
        match kinds[n]
        case Variable(k, v) => [Entry(n + 1, k, v)]
        case _ => []
  }

  /** How many of the classified lines are variables. */
  function Counted(kinds: seq<LineKind>): nat {
    if kinds == [] then 0
    else Counted(kinds[..|kinds| - 1]) + (if kinds[|kinds| - 1].Variable? then 1 else 0)
  }

  /** How many of `lines`, trimmed, are non-blank, not comments and hold an `=`. */
  function VariableLineCount(lines: seq<string>): nat {
    if lines == [] then 0
    else VariableLineCount(lines[..|lines| - 1]) + (if IsVariableLine(lines[|lines| - 1]) then 1 else 0)
  }

  /** The lines counted are exactly the variable lines. */
  lemma {:induction false} CountedAreVariableLines(lines: seq<string>)
    ensures Counted(Classify(lines)) == VariableLineCount(lines)
  {
    if lines != [] {
      var n := |lines| - 1;
      assert Classify(lines)[..n] == Classify(lines[..n]);
      CountedAreVariableLines(lines[..n]);
      ClassifyLineMeaning(lines[n]);
    }
  }

  /** `e` names a line whose classification is exactly that variable. */
  predicate EntryOf(kinds: seq<LineKind>, e: Entry) {
    1 <= e.lineNumber <= |kinds| && kinds[e.lineNumber - 1] == Variable(e.key, e.value)
  }

  /** Line numbers strictly increase along `es`. */
  predicate Increasing(es: seq<Entry>) {
    forall j, j' :: 0 <= j < j' < |es| ==> es[j].lineNumber < es[j'].lineNumber
  }

  /** Every entry names a line classified as exactly that variable. */
  lemma {:induction false} EntriesSound(kinds: seq<LineKind>)
    ensures forall e :: e in Entries(kinds) ==> EntryOf(kinds, e)
  {
    if kinds != [] {
      var n := |kinds| - 1;
      EntriesSound(kinds[..n]);
      forall e | e in Entries(kinds[..n]) ensures EntryOf(kinds, e) {
        assert EntryOf(kinds[..n], e);
      }
    }
  }

  /** The entries follow the order of the lines. */
  lemma {:induction false} EntriesIncreasing(kinds: seq<LineKind>)
    ensures Increasing(Entries(kinds))
  {
    if kinds != [] {
      var n := |kinds| - 1;
      var init := Entries(kinds[..n]);
      EntriesIncreasing(kinds[..n]);
      if kinds[n].Variable? {
        EntriesSound(kinds[..n]);
        var e := Entry(n + 1, kinds[n].key, kinds[n].value);
        forall x | x in init ensures x.lineNumber < e.lineNumber {
          assert EntryOf(kinds[..n], x);
        }
        IncreasingSnoc(init, e);
      }
    }
  }

  lemma IncreasingSnoc(init: seq<Entry>, e: Entry)
    requires Increasing(init)
    requires forall x :: x in init ==> x.lineNumber < e.lineNumber
    ensures Increasing(init + [e])
  {
    var es := init + [e];
    forall j, j' | 0 <= j < j' < |es| ensures es[j].lineNumber < es[j'].lineNumber {
      assert es[j] == init[j];
      if j' < |init| {
        assert es[j'] == init[j'];
      } else {
        assert init[j] in init;
      }
    }
  }

  /** Every line classified as a variable has an entry. */
  lemma {:induction false} EntriesComplete(kinds: seq<LineKind>, i: nat)
    requires i < |kinds| && kinds[i].Variable?
    ensures Entry(i + 1, kinds[i].key, kinds[i].value) in Entries(kinds)
  {
    var n := |kinds| - 1;
    if i < n {
      EntriesComplete(kinds[..n], i);
    }
  }

  /** Each variable is counted once and reported once. */
  lemma {:induction false} CountedIsEntries(kinds: seq<LineKind>)
    ensures Counted(kinds) == |Entries(kinds)|
  {
    if kinds != [] {
      CountedIsEntries(kinds[..|kinds| - 1]);
    }
  }

  /**
   * The `forEach` callback for one line: it trims the line, skips blank and
   * comment lines, and splits a line holding `=` into key and value the way
   * the handler does (`split('=')`, the first piece trimmed, the others
   * re-joined on `=` and trimmed). What it decides is the line's classification.
   */
  method AnalyzeLine(line: string) returns (kind: LineKind)
    ensures kind == ClassifyLine(line)
  {
    var trimmedLine := Trim(line);
    if trimmedLine != [] && trimmedLine[0] != '#' {
      if IndexOf(trimmedLine, '=').Some? {
        var (key, value) := KeyValue(trimmedLine);
        kind := Variable(key, value);
      } else {
        kind := MissingEquals;
      }
    } else {
      kind := Skipped;
    }
  }

  /**
   * The diagnostic's loop: it splits the file on newlines, visits every line
   * in order and counts the variables. It returns the count and the entries it
   * logs: the count is the number of variable lines, and the entries are the
   * ones the classification of the lines gives, in order.
   */
  method AnalyzeEnv(content: string) returns (validVariables: nat, entries: seq<Entry>)
    ensures var lines := Split(content, '\n');
      && validVariables == VariableLineCount(lines)
      && entries == Entries(Classify(lines))
  {
    var lines := Split(content, '\n');
    ghost var kinds: seq<LineKind> := [];
    validVariables := 0;
    entries := [];
    var index := 0;
    while index < |lines|
      invariant 0 <= index <= |lines|
      invariant kinds == Classify(lines[..index])
      invariant validVariables == Counted(kinds)
      invariant entries == Entries(kinds)
    {
      var kind := AnalyzeLine(lines[index]);
      if kind.Variable? {
        entries := entries + [Entry(index + 1, kind.key, kind.value)];
        validVariables := validVariables + 1;
      }
      assert (kinds + [kind])[..index] == kinds;
      ClassifySnoc(lines, index);
      kinds := kinds + [kind];
      index := index + 1;
    }
    assert lines[..index] == lines;
    CountedAreVariableLines(lines);
  }

  /**
   * What `AnalyzeEnv` reports, in the handler's terms: the count is the number
   * of variable lines, each entry names a line classified as exactly that
   * variable, every variable line has its entry, and the entries follow the
   * file's order.
   */
  lemma ReportMeaning(lines: seq<string>)
    ensures var kinds := Classify(lines);
      var es := Entries(kinds);
      && VariableLineCount(lines) == |es|
      && (forall e :: e in es ==> EntryOf(kinds, e))
      && (forall n :: 0 <= n < |lines| && kinds[n].Variable? ==>
            Entry(n + 1, kinds[n].key, kinds[n].value) in es)
      && Increasing(es)
  {
    var kinds := Classify(lines);
    CountedAreVariableLines(lines);
    CountedIsEntries(kinds);
    EntriesSound(kinds);
    EntriesIncreasing(kinds);
    forall n | 0 <= n < |lines| && kinds[n].Variable?
      ensures Entry(n + 1, kinds[n].key, kinds[n].value) in Entries(kinds)
    {
      EntriesComplete(kinds, n);
    }
  }
}
