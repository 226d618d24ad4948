/** Tokens and title keys of tools/build_wiki_graph.py; a key determines its tokens. */
module TitleTokens {

  /** `str.lower` on the ASCII letters. */
  function LowerChar(c: char): (r: char)
    ensures if 65 <= c as int <= 90 then r as int == c as int + 32 else r == c
  {
    if 'A' <= c <= 'Z' then ((c as int) + 32) as char else c
  }

  /** `[a-z0-9]`. */
  predicate IsWordChar(c: char)
    ensures IsWordChar(c) <==> 97 <= c as int <= 122 || 48 <= c as int <= 57
  {
    'a' <= c <= 'z' || '0' <= c <= '9'
  }

  /** The state of the scan: finished tokens and the run of word characters being read. */
  function Scan(text: string): (r: (seq<string>, string))
    ensures forall i :: 0 <= i < |r.0| ==> IsToken(r.0[i])
    ensures forall i :: 0 <= i < |r.1| ==> IsWordChar(r.1[i])
  {
    if text == "" then ([], "")
    else
      var (done, run) := Scan(text[..|text| - 1]);
      var c := LowerChar(text[|text| - 1]);
      if IsWordChar(c) then (done, run + [c])
      else if run == "" then (done, "")
      else (done + [run], "")
  }

  /** `_tokens`: the maximal runs of word characters of the lower-cased text. */
  function Tokens(text: string): (r: seq<string>)
    ensures forall i :: 0 <= i < |r| ==> IsToken(r[i])
  {
    var (done, run) := Scan(text);
    if run == "" then done else done + [run]
  }

  predicate IsToken(t: string) {
    t != "" && forall i :: 0 <= i < |t| ==> IsWordChar(t[i])
  }

  /** The text after `lower()`. */
  function Lowered(text: string): (r: string)
    ensures |r| == |text| && forall i :: 0 <= i < |r| ==> r[i] == LowerChar(text[i])
  {
    seq(|text|, i requires 0 <= i < |text| => LowerChar(text[i]))
  }

  /** Places i .. j-1 hold word characters, and the run goes on neither to the left nor to the right. */
  ghost predicate IsRun(low: string, i: int, j: int) {
    && 0 <= i < j <= |low| && (forall m :: i <= m < j ==> IsWordChar(low[m]))
    && (i == 0 || !IsWordChar(low[i - 1])) && (j == |low| || !IsWordChar(low[j]))
  }

  /** The runs in order, none twice. */
  ghost predicate InOrder(low: string, runs: seq<(int, int)>) {
    && (forall m :: 0 <= m < |runs| ==> IsRun(low, runs[m].0, runs[m].1))
    && (forall m, n :: 0 <= m < n < |runs| ==> runs[m].1 < runs[n].0)
  }

  /** `n` characters read: the runs that end before `n` are listed, and since `start` a run is being read. */
  ghost predicate Scanned(low: string, n: int, start: int, runs: seq<(int, int)>) {
    && 0 <= start <= n <= |low| && (forall m :: start <= m < n ==> IsWordChar(low[m]))
    && (start > 0 ==> !IsWordChar(low[start - 1]))
    && InOrder(low, runs) && (forall m :: 0 <= m < |runs| ==> runs[m].1 < start)
    && (forall i, j :: IsRun(low, i, j) && j < n ==> (i, j) in runs)
  }

  lemma ReadsOn(low: string, n: int, start: int, runs: seq<(int, int)>)
    requires Scanned(low, n, start, runs) && n < |low| && IsWordChar(low[n])
    ensures Scanned(low, n + 1, start, runs)
  {
    hide IsWordChar;
  }

  /** A run that ends at `n` is the one that was being read. */
  lemma RunBeingRead(low: string, n: int, start: int, runs: seq<(int, int)>, i: int)
    requires Scanned(low, n, start, runs) && (n == |low| || !IsWordChar(low[n]))
    ensures IsRun(low, i, n) <==> i == start < n
  {
    hide IsWordChar;
  }

  lemma Breaks(low: string, n: int, start: int, runs: seq<(int, int)>)
    requires Scanned(low, n, start, runs) && n < |low| && !IsWordChar(low[n])
    ensures Scanned(low, n + 1, n + 1, if start < n then runs + [(start, n)] else runs)
  {
    hide IsWordChar;
    forall i ensures IsRun(low, i, n) <==> i == start < n {
      RunBeingRead(low, n, start, runs, i);
    }
    if start < n {
      hide IsRun;
      OneMoreRun(low, start, n, runs);
    }
  }

  lemma OneMoreRun(low: string, start: int, n: int, runs: seq<(int, int)>)
    requires InOrder(low, runs) && IsRun(low, start, n) && forall m :: 0 <= m < |runs| ==> runs[m].1 < start
    ensures var runs' := runs + [(start, n)];
            && InOrder(low, runs') && (forall e :: e in runs' <==> e in runs || e == (start, n))
            && (forall m :: 0 <= m < |runs'| ==> runs'[m].1 <= n)
  {
    hide IsRun;
    var runs' := runs + [(start, n)];
    assert forall m :: 0 <= m < |runs'| ==> runs'[m] == if m < |runs| then runs[m] else (start, n);
    assert start < n by { RunNotEmpty(low, start, n); }
  }

  lemma RunNotEmpty(low: string, i: int, j: int)
    requires IsRun(low, i, j)
    ensures i < j
  {
  }

  /** The words at the listed places. */
  ghost function Cut(low: string, runs: seq<(int, int)>): (r: seq<string>)
    requires InOrder(low, runs)
    ensures |r| == |runs| && forall m :: 0 <= m < |runs| ==> r[m] == low[runs[m].0..runs[m].1]
  {
    seq(|runs|, m requires 0 <= m < |runs| => low[runs[m].0..runs[m].1])
  }

  /** What the scan holds after `n` characters. */
  ghost predicate Reads(text: string, n: int, start: int, runs: seq<(int, int)>) {
    var low := Lowered(text);
    0 <= n <= |text| && Scanned(low, n, start, runs) && Scan(text[..n]) == (Cut(low, runs), low[start..n])
  }

  lemma {:induction false} ScanRuns(text: string, n: nat) returns (start: int, runs: seq<(int, int)>)
    requires n <= |text|
    ensures Reads(text, n, start, runs)
  {
    hide Reads;
    if n == 0 {
      start, runs := 0, [];
      NothingRead(text);
    } else {
      start, runs := ScanRuns(text, n - 1);
      if IsWordChar(Lowered(text)[n - 1]) {
        ReadsWordChar(text, n - 1, start, runs);
      } else {
        ReadsBreak(text, n - 1, start, runs);
        start, runs := n, if start < n - 1 then runs + [(start, n - 1)] else runs;
      }
    }
  }

  lemma NothingRead(text: string)
    ensures Reads(text, 0, 0, [])
  {
  }

  lemma ReadsWordChar(text: string, n: int, start: int, runs: seq<(int, int)>)
    requires Reads(text, n, start, runs) && n < |text| && IsWordChar(Lowered(text)[n])
    ensures Reads(text, n + 1, start, runs)
  {
    hide IsWordChar, Scan, InOrder;
    var low := Lowered(text);
    ScanNext(text, n);
    ReadsOn(low, n, start, runs);
    assert low[start..n + 1] == low[start..n] + [low[n]];
  }

  lemma ReadsBreak(text: string, n: int, start: int, runs: seq<(int, int)>)
    requires Reads(text, n, start, runs) && n < |text| && !IsWordChar(Lowered(text)[n])
    ensures Reads(text, n + 1, n + 1, if start < n then runs + [(start, n)] else runs)
  {
    hide IsWordChar, Scan, InOrder, IsRun;
    var low := Lowered(text);
    ScanNext(text, n);
    Breaks(low, n, start, runs);
    var runs' := if start < n then runs + [(start, n)] else runs;
    assert InOrder(low, runs');
    if start < n {
      assert Cut(low, runs') == Cut(low, runs) + [low[start..n]];
    }
    assert low[n + 1..n + 1] == "";
  }

  lemma ScanNext(text: string, n: nat)
    requires n < |text|
    ensures var c := Lowered(text)[n];
            var (done, run) := Scan(text[..n]);
            Scan(text[..n + 1]) == if IsWordChar(c) then (done, run + [c]) else if run == "" then (done, "") else (done + [run], "")
  {
    hide IsWordChar;
    assert text[..n + 1][..n] == text[..n];
  }

  /** The tokens are the maximal runs of word characters of the lower-cased text, all of them, in order. */
  lemma TokensAreRuns(text: string) returns (runs: seq<(int, int)>)
    ensures var low := Lowered(text);
            && InOrder(low, runs) && (forall i, j :: IsRun(low, i, j) <==> (i, j) in runs)
            && Tokens(text) == Cut(low, runs)
  {
    var low, n, start := Lowered(text), |text|, 0;
    start, runs := ScanRuns(text, n);
    assert text[..n] == text;
    hide IsWordChar;
    forall i ensures IsRun(low, i, n) <==> i == start < n {
      RunBeingRead(low, n, start, runs, i);
    }
    var closed := runs;
    if start < n {
      runs := closed + [(start, n)];
      OneMoreRun(low, start, n, closed);
      assert Cut(low, runs) == Cut(low, closed) + [low[start..n]];
    }
    forall i, j ensures IsRun(low, i, j) <==> (i, j) in runs {
      assert (i, j) in runs <==> (i, j) in closed || (start < n && (i, j) == (start, n));
      if (i, j) in closed {
        var m :| 0 <= m < |closed| && closed[m] == (i, j);
      }
    }
  }

  /** `" ".join(tokens)`. */
  function Join(ts: seq<string>): string {
    if ts == [] then ""
    else if |ts| == 1 then ts[0]
    else Join(ts[..|ts| - 1]) + " " + ts[|ts| - 1]
  }

  /** `key.split()` for keys whose only white space is single spaces. */
  function Split(key: string): seq<string> {
    if SplitScan(key).1 == "" then SplitScan(key).0 else SplitScan(key).0 + [SplitScan(key).1]
  }

  function SplitScan(key: string): (seq<string>, string) {
    if key == "" then ([], "")
    else
      var (done, word) := SplitScan(key[..|key| - 1]);
      var c := key[|key| - 1];
      if c != ' ' then (done, word + [c])
      else if word == "" then (done, "")
      else (done + [word], "")
  }

  lemma {:induction false} SplitScanWord(key: string, word: string)
    requires forall i :: 0 <= i < |word| ==> word[i] != ' '
    ensures SplitScan(key + word) == (SplitScan(key).0, SplitScan(key).1 + word)
  {
    if word == "" {
      assert key + word == key;
      assert SplitScan(key).1 + word == SplitScan(key).1;
    } else {
      var init, c := word[..|word| - 1], word[|word| - 1];
      SplitScanWord(key, init);
      assert (key + word)[..|key + word| - 1] == key + init;
      assert SplitScan(key).1 + word == (SplitScan(key).1 + init) + [c];
    }
  }

  lemma SplitScanSpace(key: string)
    requires SplitScan(key).1 != ""
    ensures SplitScan(key + " ") == (SplitScan(key).0 + [SplitScan(key).1], "")
  {
  }

  lemma TokenHasNoSpace(t: string)
    requires IsToken(t)
    ensures forall i :: 0 <= i < |t| ==> t[i] != ' '
  {
  }

  lemma {:induction false} SplitScanJoin(ts: seq<string>)
    requires ts != [] && forall i :: 0 <= i < |ts| ==> IsToken(ts[i])
    ensures SplitScan(Join(ts)) == (ts[..|ts| - 1], ts[|ts| - 1]) && ts[|ts| - 1] != ""
  {
    var last := ts[|ts| - 1];
    TokenHasNoSpace(last);
    if |ts| == 1 {
      SplitScanWord("", last);
      assert "" + last == last;
      assert ts[..0] == [];
    } else {
      var init := ts[..|ts| - 1];
      SplitScanJoin(init);
      SplitScanSpace(Join(init));
      SplitScanWord(Join(init) + " ", last);
      assert init[..|init| - 1] + [init[|init| - 1]] == init;
      assert "" + last == last;
    }
  }

  /** Splitting a title key gives back its tokens. */
  lemma {:induction false} SplitJoin(ts: seq<string>)
    requires forall i :: 0 <= i < |ts| ==> IsToken(ts[i])
    ensures Split(Join(ts)) == ts
  {
    hide IsToken;
    if ts == [] {
    } else {
      hide SplitScan, Join;
      SplitScanJoin(ts);
      assert ts[..|ts| - 1] + [ts[|ts| - 1]] == ts;
    }
  }

  /** So two token lists with the same key are the same. */
  lemma {:induction false} JoinInjective(a: seq<string>, b: seq<string>)
    requires forall i :: 0 <= i < |a| ==> IsToken(a[i])
    requires forall i :: 0 <= i < |b| ==> IsToken(b[i])
    ensures Join(a) == Join(b) <==> a == b
  {
    SplitJoin(a);
    SplitJoin(b);
  }
}
