/**
 * The high-score file and the high-score screen.  The file is the
 * sequence of its lines; a record is `name,score`, written only for a
 * positive score.  Loading parses every line (skipping malformed ones),
 * sorts the entries by score, best first and stable on ties, and shows
 * at most the first ten.
 */
module HighScores {
  import opened Optional
  import opened JavaText

  datatype ScoreEntry = ScoreEntry(name: string, score: int)

  // ---------------------------------------------------------------------
  // Writing and reading one record

  /** The line written for a record: the name, a comma, the score.  With
      a comma-free name it splits back into the name and the score text. */
  function Record(name: string, score: int): (line: string)
    ensures ',' !in name ==> Split(line) == [name, IntToString(score)]
  {
    if ',' !in name then
      SplitTwoFields(name, IntToString(score));
      name + [','] + IntToString(score)
    else
      name + [','] + IntToString(score)
  }

  /** The file after saving a score: the file is only ever appended to, and
      gains a line exactly when the score is positive. */
  function AppendScore(file: seq<string>, name: string, score: int): (r: seq<string>)
    ensures |file| <= |r| <= |file| + 1 && r[..|file|] == file
    ensures |r| == |file| + 1 <==> score > 0
  {
    if score <= 0 then file else file + [Record(name, score)]
  }

  /** One line of the file: accepted iff it splits on commas into exactly
      two parts whose second part, trimmed, is a 32-bit integer. */
  function ParseLine(line: string): (r: Option<ScoreEntry>)
    ensures r.Some? ==> ',' !in r.value.name && IntMin <= r.value.score <= IntMax
  {
    var parts := Split(line);
    if |parts| == 2 then
      match ParseInt(Trim(parts[1]))
      case Some(v) => Some(ScoreEntry(parts[0], v))
      case None => None
    else None
  }

  /** A record with a comma-free name and a 32-bit score reads back as
      that same name and score. */
  lemma ParseRecord(name: string, score: int)
    requires ',' !in name && IntMin <= score <= IntMax
    ensures ParseLine(Record(name, score)) == Some(ScoreEntry(name, score))
  {
    SplitTwoFields(name, IntToString(score));
    TrimUnchanged(IntToString(score));
    ParseIntToString(score);
  }

  /** A line of two comma-free fields is accepted exactly when its
      second field, trimmed, parses as an int. */
  lemma ParseTwoFields(a: string, b: string)
    requires ',' !in a && ',' !in b && b != ""
    ensures ParseLine(a + [','] + b)
         == if ParseInt(Trim(b)).Some? then Some(ScoreEntry(a, ParseInt(Trim(b)).value)) else None
  {
    SplitTwoFields(a, b);
  }

  /** A trailing comma is dropped by the split, so a record followed by
      a comma is still read back. */
  lemma TrailingCommaAccepted(name: string, score: int)
    requires ',' !in name && IntMin <= score <= IntMax
    ensures ParseLine(Record(name, score) + [',']) == Some(ScoreEntry(name, score))
  {
    var digits := IntToString(score);
    var line := Record(name, score) + [','];
    assert line == name + [','] + (digits + [','] + "");
    PiecesAfter(name, digits + [','] + "");
    PiecesAfter(digits, "");
    PiecesOfCommaFree("");
    var pieces := [name, digits, ""];
    assert Pieces(line) == pieces;
    assert pieces[..2] == [name, digits];
    assert line[|name|] == ',';
    assert Split(line) == [name, digits];
    TrimUnchanged(digits);
    ParseIntToString(score);
  }

  /** A name followed by a lone comma has one field left after the
      split: the line is skipped. */
  lemma MissingScoreSkipped(name: string)
    requires ',' !in name
    ensures ParseLine(name + [',']) == None
  {
    var line := name + [','];
    assert line == name + [','] + "";
    PiecesAfter(name, "");
    PiecesOfCommaFree("");
    var pieces := [name, ""];
    assert Pieces(line) == pieces;
    assert pieces[..1] == [name];
    assert line[|name|] == ',';
  }

  /** Blanks around the score are trimmed before it is parsed. */
  lemma BlanksAroundScoreTrimmed(name: string, score: int, before: string, after: string)
    requires ',' !in name && IntMin <= score <= IntMax
    requires forall i :: 0 <= i < |before| ==> IsBlank(before[i])
    requires forall i :: 0 <= i < |after| ==> IsBlank(after[i])
    ensures ParseLine(name + [','] + before + IntToString(score) + after) == Some(ScoreEntry(name, score))
  {
    var digits := IntToString(score);
    var field := before + digits + after;
    assert ',' !in field by {
      forall i | 0 <= i < |field|
        ensures field[i] != ','
      {
        if i < |before| {
          assert field[i] == before[i];
        } else if i >= |before| + |digits| {
          assert field[i] == after[i - |before| - |digits|];
        } else {
          assert field[i] == digits[i - |before|];
        }
      }
    }
    assert name + [','] + before + digits + after == name + [','] + field;
    ParseTwoFields(name, field);
    TrimAround(before, digits, after);
    ParseIntToString(score);
  }

  /** A line with more than two fields is skipped. */
  lemma ThreeFieldsSkipped(a: string, b: string, c: string)
    requires ',' !in a && ',' !in b && ',' !in c && c != ""
    ensures ParseLine(a + [','] + b + [','] + c) == None
  {
    var line := a + [','] + b + [','] + c;
    assert Pieces(line) == [a, b, c] by {
      assert line == a + [','] + (b + [','] + c);
      PiecesAfter(a, b + [','] + c);
      PiecesAfter(b, c);
      PiecesOfCommaFree(c);
    }
    assert ',' in line by {
      assert line[|a|] == ',';
    }
    assert Split(line) == [a, b, c];
  }

  /** A score field that is not an int once trimmed is skipped. */
  lemma NonNumericScoreSkipped(name: string, field: string)
    requires ',' !in name && ',' !in field && field != ""
    requires ParseInt(Trim(field)) == None
    ensures ParseLine(name + [','] + field) == None
  {
    ParseTwoFields(name, field);
  }

  /** Every line of the file, in file order, keeping those that parse. */
  function ParseAll(lines: seq<string>): (r: seq<ScoreEntry>)
    ensures |r| <= |lines|
  {
    if lines == [] then []
    else
      var last := ParseLine(lines[|lines| - 1]);
      ParseAll(lines[..|lines| - 1]) + (if last.Some? then [last.value] else [])
  }

  /** A line is read independently of the others: the entries of a file
      are those of its first part followed by those of the rest. */
  lemma {:induction false} ParseAllAppend(a: seq<string>, b: seq<string>)
    ensures ParseAll(a + b) == ParseAll(a) + ParseAll(b)
    decreases |b|
  {
    if b != [] {
      var b' := b[..|b| - 1];
      assert (a + b)[..|a + b| - 1] == a + b';
      ParseAllAppend(a, b');
    } else {
      assert a + b == a;
    }
  }

  /** Saving a score and loading the file again adds exactly that entry
      at the end when the score is positive, and nothing otherwise. */
  lemma LoadAfterSave(file: seq<string>, name: string, score: int)
    requires ',' !in name && score <= IntMax
    ensures ParseAll(AppendScore(file, name, score))
         == ParseAll(file) + (if score > 0 then [ScoreEntry(name, score)] else [])
  {
    if score > 0 {
      ParseRecord(name, score);
      ParseAllAppend(file, [Record(name, score)]);
      assert [Record(name, score)][..0] == [];
    }
  }

  /** The read loop: one line at a time, appending what parses. */
  method ReadScores(lines: seq<string>) returns (scores: seq<ScoreEntry>)
    ensures scores == ParseAll(lines)
  {
    scores := [];
    var i := 0;
    while i < |lines|
      invariant 0 <= i <= |lines|
      invariant scores == ParseAll(lines[..i])
    {
      assert lines[..i + 1][..i] == lines[..i];
      var entry := ParseLine(lines[i]);
      if entry.Some? {
        scores := scores + [entry.value];
      }
      i := i + 1;
    }
    assert lines[..i] == lines;
  }

  // ---------------------------------------------------------------------
  // Ordering: best score first, ties in file order

  ghost predicate SortedByScore(s: seq<ScoreEntry>) {
    forall i, j :: 0 <= i < j < |s| ==> s[i].score >= s[j].score
  }

  /** The entries with a given score, in order. */
  function WithScore(s: seq<ScoreEntry>, k: int): seq<ScoreEntry> {
    if s == [] then []
    else WithScore(s[..|s| - 1], k) + (if s[|s| - 1].score == k then [s[|s| - 1]] else [])
  }

  /** Inserts e after every entry whose score is at least e's. */
  function Insert(sorted: seq<ScoreEntry>, e: ScoreEntry): (r: seq<ScoreEntry>)
    ensures |r| == |sorted| + 1
  {
    if sorted == [] then [e]
    else if sorted[0].score < e.score then [e] + sorted
    else [sorted[0]] + Insert(sorted[1..], e)
  }

  /** Inserting adds e and loses nothing. */
  lemma {:induction false} InsertPermutes(sorted: seq<ScoreEntry>, e: ScoreEntry)
    ensures multiset(Insert(sorted, e)) == multiset(sorted) + multiset{e}
  {
    if sorted != [] && sorted[0].score >= e.score {
      var head, rest := [sorted[0]], sorted[1..];
      assert sorted == head + rest;
      calc {
        multiset(Insert(sorted, e));
        multiset(head + Insert(rest, e));
        multiset(head) + multiset(Insert(rest, e));
        { InsertPermutes(rest, e); }
        multiset(head) + multiset(rest) + multiset{e};
        multiset(sorted) + multiset{e};
      }
    }
  }

  /** The stable descending sort of the scores list, by insertion. */
  function SortByScore(s: seq<ScoreEntry>): (r: seq<ScoreEntry>)
    ensures |r| == |s|
  {
    if s == [] then []
    else
      Insert(SortByScore(s[..|s| - 1]), s[|s| - 1])
  }

  /** No score in Insert(sorted, e) exceeds a bound that every entry of
      sorted and e itself respect. */
  lemma {:induction false} InsertBounded(sorted: seq<ScoreEntry>, e: ScoreEntry, bound: int)
    requires forall i :: 0 <= i < |sorted| ==> sorted[i].score <= bound
    requires e.score <= bound
    ensures forall i :: 0 <= i < |Insert(sorted, e)| ==> Insert(sorted, e)[i].score <= bound
  {
    if sorted != [] && sorted[0].score >= e.score {
      InsertBounded(sorted[1..], e, bound);
      var r := Insert(sorted, e);
      assert forall i :: 1 <= i < |r| ==> r[i] == Insert(sorted[1..], e)[i - 1];
    }
  }

  lemma SortedCons(head: ScoreEntry, tail: seq<ScoreEntry>)
    requires SortedByScore(tail)
    requires forall i :: 0 <= i < |tail| ==> tail[i].score <= head.score
    ensures SortedByScore([head] + tail)
  {
  }

  lemma {:induction false} InsertSorted(sorted: seq<ScoreEntry>, e: ScoreEntry)
    requires SortedByScore(sorted)
    ensures SortedByScore(Insert(sorted, e))
  {
    if sorted == [] {
    } else if sorted[0].score < e.score {
      SortedCons(e, sorted);
    } else {
      var rest := sorted[1..];
      assert SortedByScore(rest);
      assert forall i :: 0 <= i < |rest| ==> rest[i].score <= sorted[0].score by {
        forall i | 0 <= i < |rest|
          ensures rest[i].score <= sorted[0].score
        {
          assert rest[i] == sorted[i + 1];
        }
      }
      InsertSorted(rest, e);
      InsertBounded(rest, e, sorted[0].score);
      SortedCons(sorted[0], Insert(rest, e));
    }
  }

  lemma {:induction false} WithScoreNone(s: seq<ScoreEntry>, k: int)
    requires forall i :: 0 <= i < |s| ==> s[i].score < k
    ensures WithScore(s, k) == []
  {
    if s != [] {
      WithScoreNone(s[..|s| - 1], k);
    }
  }

  lemma {:induction false} WithScoreAppend(a: seq<ScoreEntry>, b: seq<ScoreEntry>, k: int)
    ensures WithScore(a + b, k) == WithScore(a, k) + WithScore(b, k)
    decreases |b|
  {
    if b == [] {
      assert a + b == a;
    } else {
      assert (a + b)[..|a + b| - 1] == a + b[..|b| - 1];
      WithScoreAppend(a, b[..|b| - 1], k);
    }
  }

  /** An entry placed before a list of lower scores comes after every
      entry of its own score. */
  lemma PrependStable(sorted: seq<ScoreEntry>, e: ScoreEntry, k: int)
    requires SortedByScore(sorted) && sorted != [] && sorted[0].score < e.score
    ensures WithScore([e] + sorted, k) == WithScore(sorted, k) + (if e.score == k then [e] else [])
  {
    WithScoreAppend([e], sorted, k);
    assert WithScore([e], k) == WithScore([], k) + (if e.score == k then [e] else []);
    if e.score == k {
      WithScoreNone(sorted, k);
    }
  }

  /** Inserting e keeps the entries of each score in order, with e after
      those of its own score. */
  lemma {:induction false} InsertStable(sorted: seq<ScoreEntry>, e: ScoreEntry, k: int)
    requires SortedByScore(sorted)
    ensures WithScore(Insert(sorted, e), k)
         == WithScore(sorted, k) + (if e.score == k then [e] else [])
  {
    if sorted == [] {
      assert WithScore([e], k) == WithScore([], k) + (if e.score == k then [e] else []);
    } else if sorted[0].score < e.score {
      PrependStable(sorted, e, k);
    } else {
      var head, rest := [sorted[0]], sorted[1..];
      var added := if e.score == k then [e] else [];
      assert head + rest == sorted;
      calc {
        WithScore(Insert(sorted, e), k);
        WithScore(head + Insert(rest, e), k);
        { WithScoreAppend(head, Insert(rest, e), k); }
        WithScore(head, k) + WithScore(Insert(rest, e), k);
        { InsertStable(rest, e, k); }
        WithScore(head, k) + (WithScore(rest, k) + added);
        { WithScoreAppend(head, rest, k); }
        WithScore(sorted, k) + added;
      }
    }
  }

  lemma {:induction false} SortIsSorted(s: seq<ScoreEntry>)
    ensures SortedByScore(SortByScore(s))
  {
    if s != [] {
      SortIsSorted(s[..|s| - 1]);
      InsertSorted(SortByScore(s[..|s| - 1]), s[|s| - 1]);
    }
  }

  lemma {:induction false} SortPermutes(s: seq<ScoreEntry>)
    ensures multiset(SortByScore(s)) == multiset(s)
  {
    if s != [] {
      var init, last := s[..|s| - 1], s[|s| - 1];
      SortPermutes(init);
      InsertPermutes(SortByScore(init), last);
      assert s == init + [last];
    }
  }

  lemma {:induction false} SortIsStable(s: seq<ScoreEntry>, k: int)
    ensures WithScore(SortByScore(s), k) == WithScore(s, k)
  {
    if s != [] {
      var init := s[..|s| - 1];
      SortIsStable(init, k);
      SortIsSorted(init);
      InsertStable(SortByScore(init), s[|s| - 1], k);
    }
  }

  /** The sort orders by score, best first, is a permutation, and keeps
      the file order of the entries of each score (it is stable). */
  lemma SortByScoreCorrect(s: seq<ScoreEntry>)
    ensures SortedByScore(SortByScore(s))
    ensures multiset(SortByScore(s)) == multiset(s)
    ensures forall k :: WithScore(SortByScore(s), k) == WithScore(s, k)
  {
    SortIsSorted(s);
    SortPermutes(s);
    forall k
      ensures WithScore(SortByScore(s), k) == WithScore(s, k)
    {
      SortIsStable(s, k);
    }
  }

  // ---------------------------------------------------------------------
  // The high-score screen

  /** The screen shows either the "no score recorded" message or the
      rows of the table. */
  datatype ScoreBoard = NoScores | Rows(rows: seq<ScoreEntry>)

  const MaxRows: int := 10

  /** At most the first ten entries of the sorted list; the message when
      the list is empty. */
  function Board(sorted: seq<ScoreEntry>): (board: ScoreBoard)
    ensures board.NoScores? <==> sorted == []
    ensures board.Rows? ==> |board.rows| == (if |sorted| < MaxRows then |sorted| else MaxRows)
    ensures board.Rows? ==> board.rows == sorted[..|board.rows|]
  {
    if sorted == [] then NoScores
    else Rows(sorted[..if |sorted| < MaxRows then |sorted| else MaxRows])
  }

  /** Loading the high scores: read, sort, keep the first ten. */
  method LoadHighScores(lines: seq<string>) returns (board: ScoreBoard)
    ensures board == Board(SortByScore(ParseAll(lines)))
  {
    var scores := ReadScores(lines);
    var sorted := SortByScore(scores);
    board := Board(sorted);
  }

  /** In a list sorted by score, no entry after position count scores
      higher than one before it. */
  lemma BelowTop(sorted: seq<ScoreEntry>, count: int)
    requires SortedByScore(sorted) && 0 <= count <= |sorted|
    ensures forall x, y :: x in sorted[count..] && y in sorted[..count] ==> x.score <= y.score
  {
  }

  /** The first rows of a list sorted by score are sorted, come from the
      list, and no entry left after them scores higher than one of them. */
  lemma TopRows(sorted: seq<ScoreEntry>, count: int)
    requires SortedByScore(sorted) && 0 <= count <= |sorted|
    ensures SortedByScore(sorted[..count])
    ensures multiset(sorted[..count]) <= multiset(sorted)
    ensures forall x: ScoreEntry, y: ScoreEntry :: x in multiset(sorted) - multiset(sorted[..count]) && y in sorted[..count] ==> x.score <= y.score
  {
    var shown, hidden := sorted[..count], sorted[count..];
    assert multiset(sorted) - multiset(shown) == multiset(hidden) by {
      assert sorted == shown + hidden;
    }
    BelowTop(sorted, count);
  }

  /** What the screen shows for a list of loaded entries: the message
      exactly when there is none; otherwise at most ten entries, best
      first, each one loaded, and no entry left off scores higher than
      one shown. */
  lemma BoardShowsBest(entries: seq<ScoreEntry>)
    ensures Board(SortByScore(entries)).NoScores? <==> entries == []
    ensures var board := Board(SortByScore(entries));
      board.Rows? ==>
        && |board.rows| == (if |entries| < MaxRows then |entries| else MaxRows)
        && SortedByScore(board.rows)
        && multiset(board.rows) <= multiset(entries)
        && forall x: ScoreEntry, y: ScoreEntry :: x in multiset(entries) - multiset(board.rows) && y in board.rows ==> x.score <= y.score
  {
    var sorted := SortByScore(entries);
    if sorted != [] {
      SortByScoreCorrect(entries);
      TopRows(sorted, if |sorted| < MaxRows then |sorted| else MaxRows);
    }
  }

  /** Two entries, the second with the higher score, sort in reverse. */
  lemma SortTwo(one: ScoreEntry, two: ScoreEntry)
    requires one.score < two.score
    ensures Board(SortByScore([one, two])) == Rows([two, one])
  {
  }

  /** Two saves in turn load back as the two entries, in file order. */
  lemma LoadTwoSaves(first: string, firstScore: int, second: string, secondScore: int)
    requires ',' !in first && ',' !in second
    requires 0 < firstScore && 0 < secondScore <= IntMax && firstScore <= IntMax
    ensures ParseAll(AppendScore(AppendScore([], first, firstScore), second, secondScore))
         == [ScoreEntry(first, firstScore), ScoreEntry(second, secondScore)]
  {
    LoadAfterSave([], first, firstScore);
    LoadAfterSave(AppendScore([], first, firstScore), second, secondScore);
  }

  /** Two games won in turn, the second with the higher score: the
      screen shows the second player first. */
  lemma TwoRecordsScenario(first: string, firstScore: int, second: string, secondScore: int)
    requires ',' !in first && ',' !in second
    requires 0 < firstScore < secondScore <= IntMax
    ensures Board(SortByScore(ParseAll(AppendScore(AppendScore([], first, firstScore), second, secondScore))))
         == Rows([ScoreEntry(second, secondScore), ScoreEntry(first, firstScore)])
  {
    LoadTwoSaves(first, firstScore, second, secondScore);
    SortTwo(ScoreEntry(first, firstScore), ScoreEntry(second, secondScore));
  }
}
