/**
 * The daily leaderboard extraction of greek_legends.py: the table rows of the
 * fetched page are read one by one into formatted player lines, the snapshot
 * of today's trophies and the set of tags already seen, comparing each player
 * with yesterday's snapshot.
 *
 * The HTML parser is abstracted: a row is the list of its `td` cells, and a
 * cell is the list of text strings the parser would find in it, together with
 * the text strings of its first link, when it has one.
 */
module Leaderboard {
  import opened Results
  import opened Text
  import opened Decimal

  /** The loop stops once this many lines have been produced (`MAX_PLAYERS`). */
  const MaxPlayers: nat := 100

  /** A `td` cell: its text strings in document order, and the text strings of
      its first `a` element, if it has one. */
  datatype Cell = Cell(strings: seq<string>, anchor: Option<seq<string>>)

  /** A `tr` row: the `td` cells found in it, in order. */
  datatype Row = Row(cells: seq<Cell>)

  /** Why a run aborts while reading a row. */
  datatype Crash =
    | NoAnchor  // the second cell has no link, so reading the name fails
    | NoDigits  // the trophies cell holds no digit, so the integer parse fails

  /** What one accepted row contributes: its tag, its line and its trophies. */
  datatype Entry = Entry(tag: string, line: string, trophies: nat)

  /** What the loop has built so far: `players`, `today_data` and `seen_tags`. */
  datatype State = State(players: seq<string>, today: map<string, nat>, seen: set<string>)

  // ---------------------------------------------------------------- cell text

  /** The strings of a cell, each stripped, with the empty ones dropped. */
  function Fragments(strings: seq<string>): seq<string> {
    if strings == [] then []
    else
      var s := Strip(strings[|strings| - 1]);
      Fragments(strings[..|strings| - 1]) + (if s == [] then [] else [s])
  }

  /** `cell.get_text(sep, strip=True)`. */
  function CellText(c: Cell, sep: string): string {
    Join(sep, Fragments(c.strings))
  }

  /** Stripping the cell's strings never removes a digit: the trophies read from a
      cell are the digits of all of its text, whatever whitespace surrounds them. */
  lemma CellDigits(c: Cell)
    ensures Digits(CellText(c, "")) == Digits(Join("", c.strings))
  {
    FragmentDigits(c.strings);
  }

  lemma {:induction false} FragmentDigits(strings: seq<string>)
    ensures Digits(Join("", Fragments(strings))) == Digits(Join("", strings))
    decreases |strings|
  {
    if strings != [] {
      var init, last := strings[..|strings| - 1], strings[|strings| - 1];
      var s := Strip(last);
      var kept := Fragments(init);
      FragmentDigits(init);
      StripDigits(last);
      JoinEmptyLast(strings);
      DigitsAppend(Join("", init), last);
      if s == [] {
        assert Fragments(strings) == kept;
        assert Digits(last) == [];
        assert Digits(Join("", init)) + [] == Digits(Join("", init));
      } else {
        assert Fragments(strings) == kept + [s];
        JoinEmptyAppend(kept, s);
        DigitsAppend(Join("", kept), s);
      }
    }
  }

  lemma StripDigits(s: string)
    ensures Digits(Strip(s)) == Digits(s)
  {
    var r := Strip(s);
    StripKeepsMiddle(s);
    var a :| 0 <= a <= |s| - |r| && AllSpace(s[..a]) && AllSpace(s[a + |r|..]) && s == s[..a] + r + s[a + |r|..];
    var front, back := s[..a], s[a + |r|..];
    DigitsOfSpace(front);
    DigitsOfSpace(back);
    DigitsAppend(front + r, back);
    DigitsAppend(front, r);
  }

  lemma JoinEmptyLast(parts: seq<string>)
    requires parts != []
    ensures Join("", parts) == Join("", parts[..|parts| - 1]) + parts[|parts| - 1]
  {
    if |parts| == 1 {
      assert parts[..0] == [];
    }
  }

  lemma JoinEmptyAppend(parts: seq<string>, p: string)
    ensures Join("", parts + [p]) == Join("", parts) + p
  {
    if parts == [] {
      assert parts + [p] == [p];
    } else {
      assert (parts + [p])[..|parts|] == parts;
    }
  }

  // ------------------------------------------------------------ row pieces

  /** The rows the loop does not skip straight away: at least three cells, and
      a `#` in the text of the second one. */
  predicate Qualifies(row: Row) {
    |row.cells| >= 3 && '#' in CellText(row.cells[1], " ")
  }

  /** The player tag in the second cell's text: what follows its last `#`, stripped. */
  function Tag(raw: string): string {
    Strip(AfterLast(raw, '#'))
  }

  /** The tag holds no `#`, has no whitespace at either end, and is no longer than the text. */
  lemma TagShape(raw: string)
    ensures '#' !in Tag(raw) && IsTrimmed(Tag(raw))
    ensures |Tag(raw)| <= |raw|
  {
    var after := AfterLast(raw, '#');
    var t := Strip(after);
    AfterLastShape(raw, '#');
    AfterLastFree(raw, '#');
    StripKeepsMiddle(after);
    StripTrimmed(after);
    assert forall c :: c in t ==> c in after;
  }

  /** Whatever precedes the last `#`, the tag is the trimmed text after it. */
  lemma TagFollowsLastHash(x: string, w1: string, t: string, w2: string)
    requires AllSpace(w1) && AllSpace(w2) && IsTrimmed(t) && '#' !in t
    ensures Tag(x + "#" + w1 + t + w2) == t
  {
    assert '#' !in w1 && '#' !in w2 by {
      assert !IsSpace('#');
    }
    assert x + "#" + w1 + t + w2 == x + ['#'] + (w1 + t + w2);
    AfterLastSeparator(x, '#', w1 + t + w2);
    StripSurrounded(w1, t, w2);
  }

  function TagOf(row: Row): string
    requires |row.cells| >= 3
  {
    Tag(CellText(row.cells[1], " "))
  }

  /** The tag a row contributes once past the two filters, or nothing for a row
      the loop skips before looking at its tag. */
  function Key(row: Row): Option<string> {
    if Qualifies(row) then Some(TagOf(row)) else None
  }

  /** The rank as printed on the page: the first cell's text up to its first `.`. */
  function Rank(text: string): string {
    BeforeFirst(text, '.')
  }

  /** The player's name: the text of the link in the second cell, stripped. */
  function Name(anchor: seq<string>): string {
    Strip(Join("", anchor))
  }

  /** `int("".join(c for c in text if c.isdigit()))`, which fails when there is no digit. */
  function ParseTrophies(text: string): Result<nat, Crash> {
    var ds := Digits(text);
    DigitsShape(text);
    if ds == [] then Failure(NoDigits) else Success(Value(ds))
  }

  /** Reading the trophies fails, with `NoDigits`, exactly when the text holds no digit. */
  lemma ParseTrophiesFails(text: string)
    ensures ParseTrophies(text).Failure? <==> forall k :: 0 <= k < |text| ==> !IsDigit(text[k])
    ensures ParseTrophies(text).Failure? ==> ParseTrophies(text).error == NoDigits
  {
    DigitsEmpty(text);
  }

  /** A trophy count printed on a line reads back as the same count. */
  lemma PrintedTrophiesReadBack(n: nat)
    ensures ParseTrophies(ToDecimal(n)) == Success(n)
  {
    DigitsOfDigits(ToDecimal(n));
    ValueOfDecimal(n);
  }

  /** The change since yesterday, when yesterday's snapshot has the tag. */
  function Delta(tag: string, trophies: nat, previous: map<string, int>): (d: Option<int>)
    ensures d.None? <==> tag !in previous
    ensures d.Some? ==> previous[tag] + d.value == trophies
  {
    if tag in previous then Some(trophies - previous[tag]) else None
  }

  /** The indicator appended to a line: nothing for a player missing from the
      snapshot, a green up-triangle with the gain, a red down-triangle with the
      loss, or a white bar when the count is unchanged. */
  function Change(delta: Option<int>): (s: string)
    ensures s == [] <==> delta.None?
    ensures s != [] ==> s[0] == ' '
  {
    match delta
    case None => ""
    case Some(d) =>
      if d > 0 then " \U{1F7E2} \U{25B2}" + ToDecimal(d)
      else if d < 0 then " \U{1F534} \U{25BC}" + ToDecimal(-d)
      else " \U{26AA} \U{25AC}"
  }

  /** The indicator tells the delta apart: two deltas with the same indicator are equal. */
  lemma ChangeInjective(a: Option<int>, b: Option<int>)
    ensures Change(a) == Change(b) ==> a == b
  {
    if Change(a) == Change(b) && a.Some? && b.Some? {
      var x, y := a.value, b.value;
      var s := Change(a);
      if x > 0 && y > 0 {
        assert s[4..] == ToDecimal(x) && s[4..] == ToDecimal(y);
        DecimalInjective(x, y);
      } else if x < 0 && y < 0 {
        assert s[4..] == ToDecimal(-x) && s[4..] == ToDecimal(-y);
        DecimalInjective(-x, -y);
      } else {
        assert s[1] == Change(b)[1];
      }
    }
  }

  /** `f"{rank}. {name} | {trophies}{change}"`. */
  function FormatLine(rank: string, name: string, trophies: nat, change: string): string {
    rank + ". " + name + " | " + ToDecimal(trophies) + change
  }

  /** For a given rank and name, the line determines both the trophies and the
      indicator's delta: the number ends where the indicator's space begins. */
  lemma LineDeterminesScore(rank: string, name: string, t1: nat, d1: Option<int>, t2: nat, d2: Option<int>)
    requires FormatLine(rank, name, t1, Change(d1)) == FormatLine(rank, name, t2, Change(d2))
    ensures t1 == t2 && d1 == d2
  {
    var head := rank + ". " + name + " | ";
    var n1, c1, n2, c2 := ToDecimal(t1), Change(d1), ToDecimal(t2), Change(d2);
    Assoc(head, n1, c1);
    Assoc(head, n2, c2);
    CancelPrefix(head, n1 + c1, n2 + c2);
    NumberThenSpace(n1, c1, n2, c2);
    DecimalInjective(t1, t2);
    ChangeInjective(d1, d2);
  }

  lemma CancelPrefix(h: string, a: string, b: string)
    requires h + a == h + b
    ensures a == b
  {
    assert (h + a)[|h|..] == a;
    assert (h + b)[|h|..] == b;
  }

  /** A run of digits followed by nothing or by a space splits in only one way. */
  lemma NumberThenSpace(n1: string, c1: string, n2: string, c2: string)
    requires AllDigits(n1) && AllDigits(n2)
    requires (c1 == [] || c1[0] == ' ') && (c2 == [] || c2[0] == ' ')
    requires n1 + c1 == n2 + c2
    ensures n1 == n2 && c1 == c2
  {
    var x := n1 + c1;
    assert forall k :: 0 <= k < |n1| ==> x[k] == n1[k];
    assert forall k :: 0 <= k < |n2| ==> x[k] == n2[k];
    assert |n1| < |x| ==> x[|n1|] == c1[0];
    assert |n2| < |x| ==> x[|n2|] == c2[0];
    assert |n1| == |n2|;
    assert n1 == x[..|n1|] && n2 == x[..|n2|];
    assert c1 == x[|n1|..] && c2 == x[|n2|..];
  }

  // ------------------------------------------------------------- one row

  /** The line and snapshot value of a row that passed the filters, or the
      error that aborts the run: a missing link before a missing number. */
  function EntryOf(row: Row, previous: map<string, int>): (r: Result<Entry, Crash>)
    requires |row.cells| >= 3
    ensures r.Success? ==> r.value.tag == TagOf(row)
  {
    var tag := TagOf(row);
    var rank := Rank(CellText(row.cells[0], ""));
    match row.cells[1].anchor
    case None => Failure(NoAnchor)
    case Some(a) =>
      match ParseTrophies(CellText(row.cells[2], ""))
      case Failure(e) => Failure(e)
      case Success(trophies) =>
        var line := FormatLine(rank, Name(a), trophies, Change(Delta(tag, trophies, previous)));
        Success(Entry(tag, line, trophies))
  }

  /** A row is read unless its second cell has no link or its third cell no
      digit, the link being looked at first; a row that is read carries its tag
      and the number formed by the third cell's digits. */
  lemma EntryOutcome(row: Row, previous: map<string, int>)
    requires |row.cells| >= 3
    ensures EntryOf(row, previous).Failure? <==> row.cells[1].anchor.None? || ParseTrophies(CellText(row.cells[2], "")).Failure?
    ensures EntryOf(row, previous).Failure? ==> EntryOf(row, previous).error == if row.cells[1].anchor.None? then NoAnchor else NoDigits
    ensures EntryOf(row, previous).Success? ==> ParseTrophies(CellText(row.cells[2], "")) == Success(EntryOf(row, previous).value.trophies)
  {
  }

  /** Records an accepted row: its line is appended, its tag maps to its trophies
      and is marked as seen. */
  function Add(st: State, e: Entry): State {
    State(st.players + [e.line], st.today[e.tag := e.trophies], st.seen + {e.tag})
  }

  /** One pass of the loop body: skip a short row, a row without `#` or a row
      whose tag was seen; otherwise read it, or abort. */
  function Step(st: State, row: Row, previous: map<string, int>): Result<State, Crash> {
    if !Qualifies(row) || TagOf(row) in st.seen then Success(st)
    else Read(st, row, previous)
  }

  /** A step that does not abort marks the row's tag as seen, if the row got past
      the filters, and nothing else. */
  lemma StepSeen(st: State, row: Row, previous: map<string, int>)
    requires Step(st, row, previous).Success?
    ensures Step(st, row, previous).value.seen == st.seen + if Key(row).Some? then {Key(row).value} else {}
  {
  }

  /** Reads one row into a state: its entry is added, or the run aborts. */
  function Read(st: State, row: Row, previous: map<string, int>): Result<State, Crash>
    requires |row.cells| >= 3
  {
    match EntryOf(row, previous)
    case Failure(e) => Failure(e)
    case Success(e) => Success(Add(st, e))
  }

  /** A row is passed over when it is too short, has no `#` in its second cell,
      or carries a tag already seen. */
  lemma StepSkips(st: State, row: Row, previous: map<string, int>)
    requires |row.cells| < 3 || '#' !in CellText(row.cells[1], " ") || Tag(CellText(row.cells[1], " ")) in st.seen
    ensures Step(st, row, previous) == Success(st)
  {
  }

  /** Any other row is read. */
  lemma StepReads(st: State, row: Row, previous: map<string, int>)
    requires Qualifies(row) && TagOf(row) !in st.seen
    ensures Step(st, row, previous) == Read(st, row, previous)
  {
  }

  /** A row with a link and a number yields the formatted line. */
  lemma EntryAccepted(row: Row, previous: map<string, int>, trophies: nat)
    requires |row.cells| >= 3 && row.cells[1].anchor.Some?
    requires ParseTrophies(CellText(row.cells[2], "")) == Success(trophies)
    ensures EntryOf(row, previous) == Success(Entry(TagOf(row),
      FormatLine(Rank(CellText(row.cells[0], "")), Name(row.cells[1].anchor.value), trophies,
        Change(Delta(TagOf(row), trophies, previous))), trophies))
  {
  }

  // ------------------------------------------------------------ the loop

  /** The loop's outcome on `rows`, row by row, stopping once `MaxPlayers` lines
      are made: at most `MaxPlayers` lines, one snapshot entry per line, and the
      snapshot's keys are exactly the tags seen. */
  function Run(rows: seq<Row>, previous: map<string, int>): (r: Result<State, Crash>)
    ensures r.Success? ==> |r.value.players| <= MaxPlayers
    ensures r.Success? ==> |r.value.players| == |r.value.today|
    ensures r.Success? ==> r.value.today.Keys == r.value.seen
  {
    if rows == [] then Success(State([], map[], {}))
    else
      var before := Run(rows[..|rows| - 1], previous);
      if before.Failure? || |before.value.players| >= MaxPlayers then before
      else Step(before.value, rows[|rows| - 1], previous)
  }

  /** Once the run has aborted or is full, later rows are never looked at. */
  lemma {:induction false} RunSettled(rows: seq<Row>, n: nat, previous: map<string, int>)
    requires n <= |rows|
    requires Run(rows[..n], previous).Failure? || |Run(rows[..n], previous).value.players| >= MaxPlayers
    ensures Run(rows, previous) == Run(rows[..n], previous)
    decreases |rows| - n
  {
    if n < |rows| {
      assert rows[..n + 1][..n] == rows[..n];
      RunSettled(rows, n + 1, previous);
    } else {
      assert rows[..n] == rows;
    }
  }

  /** One more row: the loop body applied to the state so far, unless it is final. */
  lemma RunNext(rows: seq<Row>, i: nat, previous: map<string, int>)
    requires i < |rows|
    requires Run(rows[..i], previous).Success? && |Run(rows[..i], previous).value.players| < MaxPlayers
    ensures Run(rows[..i + 1], previous) == Step(Run(rows[..i], previous).value, rows[i], previous)
  {
    assert rows[..i + 1][..i] == rows[..i];
  }

  /** The body of the row loop for one row: skip it (`continue`), abort, or
      append its line, record its trophies and mark its tag as seen. */
  method VisitRow(st: State, row: Row, previous: map<string, int>) returns (next: Result<State, Crash>)
    ensures next == Step(st, row, previous)
  {
    var cols := row.cells;
    if |cols| < 3 {
      StepSkips(st, row, previous);
      return Success(st);
    }
    var rawText := CellText(cols[1], " ");
    if '#' !in rawText {
      StepSkips(st, row, previous);
      return Success(st);
    }
    var tag := Tag(rawText);
    if tag in st.seen {
      StepSkips(st, row, previous);
      return Success(st);
    }
    StepReads(st, row, previous);
    var seenTags := st.seen + {tag};
    var rank := Rank(CellText(cols[0], ""));
    if cols[1].anchor.None? {
      EntryOutcome(row, previous);
      return Failure(NoAnchor);
    }
    var name := Name(cols[1].anchor.value);
    var parsed := ParseTrophies(CellText(cols[2], ""));
    if parsed.Failure? {
      EntryOutcome(row, previous);
      return Failure(NoDigits);
    }
    var trophies := parsed.value;
    var change := Change(Delta(tag, trophies, previous));
    EntryAccepted(row, previous, trophies);
    next := Success(State(st.players + [FormatLine(rank, name, trophies, change)], st.today[tag := trophies], seenTags));
  }

  /** The row loop of the script (`for row in rows: ...`), producing the
      player lines, today's snapshot and the seen tags, or the error that aborts
      the run. Yesterday's snapshot is only read. */
  method ExtractLeaderboard(rows: seq<Row>, previous: map<string, int>) returns (outcome: Result<State, Crash>)
    ensures outcome == Run(rows, previous)
  {
    var st := State([], map[], {});
    ghost var consumed := 0;
    for i := 0 to |rows|
      invariant consumed == i
      invariant Run(rows[..i], previous) == Success(st)
      invariant |st.players| < MaxPlayers
    {
      RunNext(rows, i, previous);
      consumed := i + 1;
      var next := VisitRow(st, rows[i], previous);
      if next.Failure? {
        RunSettled(rows, i + 1, previous);
        return Failure(next.error);
      }
      st := next.value;
      if |st.players| >= MaxPlayers {
        break;
      }
    }
    if consumed < |rows| {
      RunSettled(rows, consumed, previous);
    } else {
      assert rows[..consumed] == rows;
    }
    outcome := Success(st);
  }

  // ------------------------------------------------------------ the message

  /** The message body: the player lines joined by newlines. */
  function Description(players: seq<string>): string {
    Join("\n", players)
  }

  /** The message body splits back into the player lines, as long as there is at
      least one line and no line holds a newline itself. */
  lemma DescriptionSplitsBack(players: seq<string>)
    requires players != []
    requires forall k :: 0 <= k < |players| ==> '\n' !in players[k]
    ensures Split(Description(players), '\n') == players
  {
    SplitJoin(players, '\n');
  }
}
