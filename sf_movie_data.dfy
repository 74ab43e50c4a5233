/**
 * SFMovieData.splitCSVLine: a character-by-character state machine that cuts
 * one line of the movie data file into its comma-separated entries.  Straight
 * and curly double quotes open and close quoted text, in which commas and
 * whitespace are kept.
 */
module SfMovieData {
  import opened JavaLang

  /** '"', U+201C and U+201D all act as quotes. */
  predicate IsQuote(c: char) {
    c == '"' || c == '\U{201C}' || c == '\U{201D}'
  }

  /** The local variables of splitCSVLine between two characters. */
  datatype SplitState = SplitState(
    entries: seq<string>,
    nextWord: string,
    insideQuotes: bool,
    insideEntry: bool)

  const Start := SplitState([], "", false, false)

  /** One iteration of the loop over the line's characters. */
  function Step(s: SplitState, c: char): (r: SplitState)
    ensures r.insideQuotes == (s.insideQuotes != IsQuote(c))
    ensures r.entries == (if c == ',' && !s.insideQuotes then s.entries + [s.nextWord] else s.entries)
    ensures IsQuote(c) ==> r.nextWord == s.nextWord
    ensures c == ',' && !s.insideQuotes ==> r.nextWord == ""
    ensures s.insideQuotes && !IsQuote(c) ==> r.nextWord == s.nextWord + [c]
    ensures IsQuote(c) ==> r.insideEntry == !s.insideQuotes
    ensures IsWhitespace(c) && !s.insideQuotes ==>
              r == (if s.insideEntry then s.(nextWord := s.nextWord + [c]) else s)
    ensures c == ',' && !s.insideQuotes ==> !r.insideEntry
    ensures !IsQuote(c) && !IsWhitespace(c) && c != ',' ==>
              r.nextWord == s.nextWord + [c] && r.insideEntry
  {
    if IsQuote(c) then
      if s.insideQuotes then s.(insideQuotes := false, insideEntry := false)
      else s.(insideQuotes := true, insideEntry := true)
    else if IsWhitespace(c) then
      if s.insideQuotes || s.insideEntry then s.(nextWord := s.nextWord + [c]) else s
    else if c == ',' then
      if s.insideQuotes then s.(nextWord := s.nextWord + [c])
      else SplitState(s.entries + [s.nextWord], "", s.insideQuotes, false)
    else
      s.(nextWord := s.nextWord + [c], insideEntry := true)
  }

  /** The state after the characters of `line`, starting from `s`. */
  function Scan(s: SplitState, line: string): SplitState {
    if line == [] then s else Step(Scan(s, line[..|line| - 1]), line[|line| - 1])
  }

  /** Whitespace between entries, outside quotes and before any character of
      the next entry, is skipped: it leaves the state as it was. */
  lemma {:induction false} WhitespaceBetweenEntriesSkipped(s: SplitState, line: string)
    requires !s.insideQuotes && !s.insideEntry
    requires forall i | 0 <= i < |line| :: IsWhitespace(line[i])
    ensures Scan(s, line) == s
  {
    if line != [] {
      var init := line[..|line| - 1];
      assert forall i | 0 <= i < |init| :: init[i] == line[i];
      WhitespaceBetweenEntriesSkipped(s, init);
    }
  }

  /** Scanning one more character is one more step. */
  lemma ScanSnoc(s: SplitState, line: string, c: char)
    ensures Scan(s, line + [c]) == Step(Scan(s, line), c)
  {
    assert (line + [c])[..|line|] == line;
  }

  /** A character that is copied and starts an entry. */
  predicate Plain(c: char) {
    !IsQuote(c) && !IsWhitespace(c) && c != ','
  }

  /** Whitespace after a character of an entry stays in that entry: after
      "a ,b" the first entry is "a ", untrimmed, and "b" is in the buffer. */
  lemma ScanKeepsSpaceInsideEntry(a: char, sp: char, b: char)
    requires Plain(a) && IsWhitespace(sp) && Plain(b)
    ensures Scan(Start, [a, sp, ',', b]) == SplitState([[a, sp]], [b], false, true)
  {
    var s1 := Step(Start, a);
    var s2 := Step(s1, sp);
    var s3 := Step(s2, ',');
    assert s1 == SplitState([], [a], false, true);
    assert s2 == SplitState([], [a, sp], false, true);
    assert s3 == SplitState([[a, sp]], "", false, false);
    ScanSnoc(Start, [], a);
    assert [] + [a] == [a];
    ScanSnoc(Start, [a], sp);
    assert [a] + [sp] == [a, sp];
    ScanSnoc(Start, [a, sp], ',');
    assert [a, sp] + [','] == [a, sp, ','];
    ScanSnoc(Start, [a, sp, ','], b);
    assert [a, sp, ','] + [b] == [a, sp, ',', b];
  }

  /** After the loop: the last buffer, trimmed, is added unless it is empty. */
  function Finish(s: SplitState): seq<string> {
    if s.nextWord != "" then s.entries + [Trim(s.nextWord)] else s.entries
  }

  /** The list splitCSVLine returns. */
  function Split(line: string): (r: seq<string>)
    ensures line == [] ==> r == []
    ensures |Scan(Start, line).entries| <= |r| <= |Scan(Start, line).entries| + 1
  {
    Finish(Scan(Start, line))
  }

  /** splitCSVLine: the loop and the final entry, as written. */
  method SplitCsvLine(textLine: string) returns (result: seq<string>)
    ensures result == Split(textLine)
    ensures textLine == "" ==> result == []
  {
    var entries: seq<string> := [];
    var nextWord: string := "";
    var insideQuotes := false;
    var insideEntry := false;
    for i := 0 to |textLine|
      invariant SplitState(entries, nextWord, insideQuotes, insideEntry) == Scan(Start, textLine[..i])
    {
      assert textLine[..i + 1][..i] == textLine[..i];
      var nextChar := textLine[i];
      if IsQuote(nextChar) {
        if insideQuotes {
          insideQuotes := false;
          insideEntry := false;
        } else {
          insideQuotes := true;
          insideEntry := true;
        }
      } else if IsWhitespace(nextChar) {
        if insideQuotes || insideEntry {
          nextWord := nextWord + [nextChar];
        } else {
          continue;
        }
      } else if nextChar == ',' {
        if insideQuotes {
          nextWord := nextWord + [nextChar];
        } else {
          insideEntry := false;
          entries := entries + [nextWord];
          nextWord := "";
        }
      } else {
        nextWord := nextWord + [nextChar];
        insideEntry := true;
      }
    }
    assert textLine[..|textLine|] == textLine;
    result := entries;
    if nextWord != "" {
      result := result + [Trim(nextWord)];
    }
  }

  // ---------------------------------------------------------------------
  // Quotes

  function QuoteCount(line: string): nat {
    if line == [] then 0
    else QuoteCount(line[..|line| - 1]) + (if IsQuote(line[|line| - 1]) then 1 else 0)
  }

  /** Each quote character flips the quoting: after a line the scanner is
      inside quotes exactly when the line has an odd number of them. */
  lemma {:induction false} InsideQuotesIsOddQuoteCount(line: string)
    ensures Scan(Start, line).insideQuotes <==> QuoteCount(line) % 2 == 1
  {
    if line != [] {
      InsideQuotesIsOddQuoteCount(line[..|line| - 1]);
    }
  }

  predicate QuoteFree(s: string) {
    forall i | 0 <= i < |s| :: !IsQuote(s[i])
  }

  lemma TrimKeepsQuoteFree(s: string)
    requires QuoteFree(s)
    ensures QuoteFree(Trim(s))
  {
    var a := TrimStart(s);
    var b := TrimEnd(a);
    assert b == Trim(s);
    forall i | 0 <= i < |b| ensures !IsQuote(b[i]) {
      assert b[i] == a[i];
      assert a[i] == s[|s| - |a| + i];
    }
  }

  /** No quote character is ever copied into the buffer or an entry. */
  lemma {:induction false} ScanDropsQuotes(line: string)
    ensures forall i | 0 <= i < |Scan(Start, line).entries| :: QuoteFree(Scan(Start, line).entries[i])
    ensures QuoteFree(Scan(Start, line).nextWord)
  {
    if line != [] {
      ScanDropsQuotes(line[..|line| - 1]);
    }
  }

  /** No returned entry holds a quote character. */
  lemma SplitDropsQuotes(line: string)
    ensures forall i | 0 <= i < |Split(line)| :: QuoteFree(Split(line)[i])
  {
    ScanDropsQuotes(line);
    var s := Scan(Start, line);
    if s.nextWord != "" {
      TrimKeepsQuoteFree(s.nextWord);
    }
  }

  // ---------------------------------------------------------------------
  // Entry count

  /** The commas of `line` that stand after an even number of quotes. */
  function UnquotedCommas(line: string): nat {
    if line == [] then 0
    else
      var init := line[..|line| - 1];
      UnquotedCommas(init) + (if line[|line| - 1] == ',' && QuoteCount(init) % 2 == 0 then 1 else 0)
  }

  /** Every unquoted comma ends one entry, and the last buffer is one more
      unless it is empty -- so a trailing empty field is dropped. */
  lemma {:induction false} EntryCount(line: string)
    ensures |Scan(Start, line).entries| == UnquotedCommas(line)
    ensures |Split(line)| == UnquotedCommas(line) + (if Scan(Start, line).nextWord != "" then 1 else 0)
  {
    if line != [] {
      var init := line[..|line| - 1];
      EntryCount(init);
      InsideQuotesIsOddQuoteCount(init);
    }
  }

  // ---------------------------------------------------------------------
  // Quoting any list of entries

  /** An entry between straight quotes. */
  function Quoted(f: string): string {
    "\"" + f + "\""
  }

  /** Entries quoted and joined by commas. */
  function JoinQuoted(fields: seq<string>): string
    requires fields != []
  {
    if |fields| == 1 then Quoted(fields[0]) else Quoted(fields[0]) + "," + JoinQuoted(fields[1..])
  }

  lemma {:induction false} ScanAppend(s: SplitState, a: string, b: string)
    ensures Scan(s, a + b) == Scan(Scan(s, a), b)
  {
    if b != [] {
      assert (a + b)[..|a + b| - 1] == a + b[..|b| - 1];
      assert (a + b)[|a + b| - 1] == b[|b| - 1];
      ScanAppend(s, a, b[..|b| - 1]);
    } else {
      assert a + b == a;
    }
  }

  /** Inside quotes every character other than a quote is copied. */
  lemma {:induction false} ScanInsideQuotes(s: SplitState, f: string)
    requires s.insideQuotes && s.insideEntry && QuoteFree(f)
    ensures Scan(s, f) == s.(nextWord := s.nextWord + f)
  {
    if f != [] {
      var init := f[..|f| - 1];
      assert QuoteFree(init) by {
        forall i | 0 <= i < |init| ensures !IsQuote(init[i]) {
          assert init[i] == f[i];
        }
      }
      ScanInsideQuotes(s, init);
      assert s.nextWord + f == s.nextWord + init + [f[|f| - 1]];
    }
  }

  /** A quoted entry read between entries leaves exactly its text in the buffer. */
  lemma ScanQuoted(entries: seq<string>, f: string)
    requires QuoteFree(f)
    ensures Scan(SplitState(entries, "", false, false), Quoted(f)) == SplitState(entries, f, false, false)
  {
    var s := SplitState(entries, "", false, false);
    ScanAppend(s, "\"" + f, "\"");
    ScanAppend(s, "\"", f);
    assert Scan(s, "\"") == SplitState(entries, "", true, true);
    ScanInsideQuotes(SplitState(entries, "", true, true), f);
    assert "" + f == f;
  }

  /** An unquoted comma closes the buffer as the next entry. */
  lemma CommaClosesEntry(entries: seq<string>, f: string)
    ensures Scan(SplitState(entries, f, false, false), ",") == SplitState(entries + [f], "", false, false)
  {
    assert ","[..0] == [];
  }

  /** Moving the first field onto the entries, stated apart so that the
      induction step need not search for it. */
  lemma ShiftHead<X>(a: seq<X>, s: seq<X>)
    requires |s| > 1
    ensures a + [s[0]] + s[1..][..|s| - 2] == a + s[..|s| - 1]
  {
    assert [s[0]] + s[1..][..|s| - 2] == s[..|s| - 1];
  }

  lemma {:induction false} ScanJoinQuoted(entries: seq<string>, fields: seq<string>)
    requires fields != [] && forall i | 0 <= i < |fields| :: QuoteFree(fields[i])
    ensures Scan(SplitState(entries, "", false, false), JoinQuoted(fields)) ==
              SplitState(entries + fields[..|fields| - 1], fields[|fields| - 1], false, false)
    decreases |fields|
  {
    var s := SplitState(entries, "", false, false);
    ScanQuoted(entries, fields[0]);
    if |fields| > 1 {
      var head, rest := Quoted(fields[0]) + ",", fields[1..];
      ScanAppend(s, head, JoinQuoted(rest));
      ScanAppend(s, Quoted(fields[0]), ",");
      CommaClosesEntry(entries, fields[0]);
      assert forall i | 0 <= i < |rest| :: QuoteFree(rest[i]) by {
        forall i | 0 <= i < |rest| ensures QuoteFree(rest[i]) {
          assert rest[i] == fields[i + 1];
        }
      }
      ScanJoinQuoted(entries + [fields[0]], rest);
      ShiftHead(entries, fields);
    }
  }

  /** Splitting off the last element, stated apart like ShiftHead. */
  lemma InitAndLast<X>(s: seq<X>)
    requires s != []
    ensures [] + s[..|s| - 1] == s[..|s| - 1]
    ensures s[..|s| - 1] + [s[|s| - 1]] == s
  {
  }

  /** A final buffer with nothing to trim becomes the last entry as it is. */
  lemma FinishUntrimmed(s: SplitState)
    requires s.nextWord != "" && Trim(s.nextWord) == s.nextWord
    ensures Finish(s) == s.entries + [s.nextWord]
  {
  }

  /** Splitting a line of quoted, comma-joined entries gives the entries back,
      provided none holds a quote and the last one is non-empty and has
      nothing for the final trim to remove. */
  lemma SplitJoinQuoted(fields: seq<string>)
    requires fields != [] && forall i | 0 <= i < |fields| :: QuoteFree(fields[i])
    requires fields[|fields| - 1] != "" && Trim(fields[|fields| - 1]) == fields[|fields| - 1]
    ensures Split(JoinQuoted(fields)) == fields
  {
    ScanJoinQuoted([], fields);
    var line := JoinQuoted(fields);
    var last := fields[|fields| - 1];
    var st := SplitState([] + fields[..|fields| - 1], last, false, false);
    assert Scan(Start, line) == st;
    FinishUntrimmed(st);
    InitAndLast(fields);
  }
}
