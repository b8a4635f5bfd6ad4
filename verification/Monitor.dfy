// The parsing loop of runcmd (kern/monitor.c).
module Monitor {
  import opened Machine
  import opened Numerals

  const MAXARGS := 16

  predicate IsWhite(c: char) {
    c == '\t' || c == '\r' || c == '\n' || c == ' '
  }

  // ------------------------------------------------------------------
  // Specification: the words of a line
  // ------------------------------------------------------------------

  datatype Word = Word(start: nat, end: nat)

  // White space is exactly tab, line feed, carriage return and blank.
  lemma WhiteMeans(c: char)
    ensures IsWhite(c) <==> c as int in {9, 10, 13, 32}
  {
  }

  // A maximal run of other characters.
  ghost predicate IsWord(s: string, w: Word) {
    && w.start < w.end <= |s|
    && (forall k :: w.start <= k < w.end ==> !IsWhite(s[k]))
    && (w.start == 0 || IsWhite(s[w.start - 1]))
    && (w.end == |s| || IsWhite(s[w.end]))
  }

  function SkipWhite(s: string, i: nat): (j: nat)
    requires i <= |s|
    ensures i <= j <= |s| && (j < |s| ==> !IsWhite(s[j]))
    ensures forall k :: i <= k < j ==> IsWhite(s[k])
    decreases |s| - i
  {
    if i < |s| && IsWhite(s[i]) then SkipWhite(s, i + 1) else i
  }

  function SkipWord(s: string, i: nat): (j: nat)
    requires i <= |s|
    ensures i <= j <= |s| && (j < |s| ==> IsWhite(s[j]))
    ensures forall k :: i <= k < j ==> !IsWhite(s[k])
    decreases |s| - i
  {
    if i < |s| && !IsWhite(s[i]) then SkipWord(s, i + 1) else i
  }

  // The words from position i on.
  function Words(s: string, i: nat): seq<Word>
    requires i <= |s|
    decreases |s| - i
  {
    var start := SkipWhite(s, i);
    if start == |s| then [] else
      var end := SkipWord(s, start);
      [Word(start, end)] + Words(s, end)
  }

  // They are exactly the maximal runs, in order.
  lemma {:induction false} WordsFrom(s: string, i: nat)
    requires i <= |s| && (i == 0 || i == |s| || IsWhite(s[i]))
    ensures forall w :: w in Words(s, i) <==> IsWord(s, w) && w.start >= i
    ensures forall j, k :: 0 <= j < k < |Words(s, i)| ==> Words(s, i)[j].end < Words(s, i)[k].start
    decreases |s| - i
  {
    var start := SkipWhite(s, i);
    assert forall w :: IsWord(s, w) ==> !IsWhite(s[w.start]);
    if start == |s| {
      assert Words(s, i) == [];
    } else {
      var end := SkipWord(s, start);
      var rest := Words(s, end);
      WordsFrom(s, end);
      assert Words(s, i) == [Word(start, end)] + rest;
      assert IsWord(s, Word(start, end));
      forall w | IsWord(s, w) && w.start >= i ensures w == Word(start, end) || w.start >= end {
        OneRun(s, Word(start, end), w);
      }
      forall k | 0 <= k < |rest| ensures end < rest[k].start {
        assert rest[k] in rest && !IsWhite(s[rest[k].start]);
      }
    }
  }

  // Two maximal runs are the same or lie apart.
  lemma OneRun(s: string, v: Word, w: Word)
    requires IsWord(s, v) && IsWord(s, w) && v.start <= w.start
    ensures v == w || v.end <= w.start
  {
    if v.start < w.start {
      assert IsWhite(s[w.start - 1]);
    }
  }

  lemma WordsAreMaximalRuns(s: string)
    ensures forall w :: w in Words(s, 0) <==> IsWord(s, w)
    ensures forall j, k :: 0 <= j < k < |Words(s, 0)| ==> Words(s, 0)[j].end < Words(s, 0)[k].start
  {
    WordsFrom(s, 0);
  }

  // ------------------------------------------------------------------
  // The parsing loop
  // ------------------------------------------------------------------

  // The buffer holds s, with the white space before position i turned into NULs.
  ghost predicate Blanked(buf: seq<char>, s: string, i: nat) {
    && |s| < |buf| && i <= |s|
    && (forall k :: 0 <= k < |s| ==> buf[k] == if k < i && IsWhite(s[k]) then '\0' else s[k])
    && buf[|s|] == '\0'
  }

  method GobbleWhite(buf: array<char>, ghost s: cstring, from: nat) returns (p: nat)
    requires Blanked(buf[..], s, from)
    modifies buf
    ensures p == SkipWhite(s, from) && Blanked(buf[..], s, p) && buf[|s|..] == old(buf[|s|..])
  {
    p := from;
    while buf[p] != '\0' && IsWhite(buf[p])
      invariant from <= p <= |s| && Blanked(buf[..], s, p)
      invariant SkipWhite(s, p) == SkipWhite(s, from)
      invariant buf[|s|..] == old(buf[|s|..])
      decreases |s| - p
    {
      buf[p] := '\0';
      p := p + 1;
    }
  }

  method ScanPast(buf: array<char>, ghost s: cstring, from: nat) returns (p: nat)
    requires Blanked(buf[..], s, from)
    ensures p == SkipWord(s, from) && Blanked(buf[..], s, p)
  {
    p := from;
    while buf[p] != '\0' && !IsWhite(buf[p])
      invariant from <= p <= |s| && Blanked(buf[..], s, p)
      invariant SkipWord(s, p) == SkipWord(s, from)
      decreases |s| - p
    {
      p := p + 1;
    }
  }

  lemma NextWord(s: string, words: seq<Word>, n: nat, p: nat)
    requires n <= |words| && p <= |s| && words[n..] == Words(s, p)
    ensures var start := SkipWhite(s, p);
      if start == |s| then n == |words|
      else n < |words| && words[n].start == start && words[n + 1..] == Words(s, SkipWord(s, start))
  {
    if SkipWhite(s, p) < |s| {
      assert words[n] == words[n..][0];
      assert words[n + 1..] == words[n..][1..];
    }
  }

  // Fills argv with the words of the line, or rejects the line if there are too many of them.
  method ParseArgs(buf: array<char>, ghost s: cstring) returns (ok: bool, argc: nat, argv: array<Option<nat>>)
    requires Blanked(buf[..], s, 0)
    modifies buf
    ensures argv.Length == 16
    ensures ok <==> |Words(s, 0)| <= 15
    ensures ok ==> argc == |Words(s, 0)| && argv[argc] == None && Blanked(buf[..], s, |s|)
    ensures ok ==> forall k :: 0 <= k < argc ==> argv[k] == Some(Words(s, 0)[k].start)
    ensures !ok ==> Blanked(buf[..], s, Words(s, 0)[15].start)
    ensures buf[|s|..] == old(buf[|s|..])
  {
    argv := new Option<nat>[MAXARGS](_ => None);
    argc := 0;
    argv[argc] := None;
    var p := 0;
    ghost var words := Words(s, 0);
    while true
      invariant 0 <= p <= |s| && argc < MAXARGS && Blanked(buf[..], s, p)
      invariant argc <= |words| && words[argc..] == Words(s, p)
      invariant forall k :: 0 <= k < argc ==> argv[k] == Some(words[k].start)
      invariant buf[|s|..] == old(buf[|s|..])
      decreases |s| - p
    {
      NextWord(s, words, argc, p);
      p := GobbleWhite(buf, s, p);
      if buf[p] == '\0' {
        break;
      }
      if argc == MAXARGS - 1 {
        return false, argc, argv;
      }
      argv[argc] := Some(p);
      argc := argc + 1;
      p := ScanPast(buf, s, p);
    }
    argv[argc] := None;
    ok := true;
  }

  // Each argument is then a NUL-terminated string in place: the word itself.
  lemma ArgumentsAreWords(buf: seq<char>, s: string, w: Word)
    requires Blanked(buf, s, |s|) && IsWord(s, w)
    ensures buf[w.start..w.end] == s[w.start..w.end] && buf[w.end] == '\0'
  {
  }
}
