/**
 * What the row loop selects, stated without the loop: the rows that pass the
 * filters and are the first with their tag, in page order, cut off after
 * `MaxPlayers` of them. The loop's outcome is proved to be the outcome of
 * reading exactly those rows one after the other, which gives the ordering,
 * uniqueness and snapshot-consistency properties of the extraction.
 *
 * The selection is worked out on views of the rows: what the loop sees of a
 * row is either nothing (it fails the filters) or its tag together with the
 * outcome of reading it.
 */
module Selection {
  import opened Results
  import opened Text
  import opened Leaderboard

  // ------------------------------------------------------------ views

  /** What the loop sees of one row. */
  datatype View = Skipped | Tagged(tag: string, entry: Result<Entry, Crash>)

  function ViewOf(row: Row, previous: map<string, int>): View {
    if Qualifies(row) then Tagged(TagOf(row), EntryOf(row, previous)) else Skipped
  }

  /** The view of every row, in order. */
  function Views(rows: seq<Row>, previous: map<string, int>): (vs: seq<View>)
    ensures |vs| == |rows|
  {
    if rows == [] then [] else Views(rows[..|rows| - 1], previous) + [ViewOf(rows[|rows| - 1], previous)]
  }

  lemma {:induction false} ViewsAt(rows: seq<Row>, previous: map<string, int>, j: nat)
    requires j < |rows|
    ensures Views(rows, previous)[j] == ViewOf(rows[j], previous)
    decreases |rows|
  {
    if j < |rows| - 1 {
      ViewsAt(rows[..|rows| - 1], previous, j);
    }
  }

  lemma ViewsNext(rows: seq<Row>, r: Row, previous: map<string, int>)
    ensures Views(rows + [r], previous) == Views(rows, previous) + [ViewOf(r, previous)]
  {
    assert (rows + [r])[..|rows|] == rows;
  }

  /** A read entry carries the tag of its view. */
  predicate Coherent(vs: seq<View>) {
    forall k :: 0 <= k < |vs| && vs[k].Tagged? && vs[k].entry.Success? ==> vs[k].entry.value.tag == vs[k].tag
  }

  lemma ViewsCoherent(rows: seq<Row>, previous: map<string, int>)
    ensures Coherent(Views(rows, previous))
  {
    var vs := Views(rows, previous);
    forall k | 0 <= k < |vs| && vs[k].Tagged? && vs[k].entry.Success? ensures vs[k].entry.value.tag == vs[k].tag {
      ViewsAt(rows, previous, k);
    }
  }

  // ------------------------------------------------- the loop over views

  /** The loop body on a view: skip, skip a seen tag, or record the entry or abort. */
  function ScanStep(st: State, v: View): Result<State, Crash> {
    match v
    case Skipped => Success(st)
    case Tagged(t, e) =>
      if t in st.seen then Success(st)
      else
        match e
        case Failure(x) => Failure(x)
        case Success(en) => Success(Add(st, en))
  }

  /** The loop over views, with the same stop as `Run`. */
  function Scan(vs: seq<View>): Result<State, Crash> {
    if vs == [] then Success(State([], map[], {}))
    else
      var before := Scan(vs[..|vs| - 1]);
      if before.Failure? || |before.value.players| >= MaxPlayers then before
      else ScanStep(before.value, vs[|vs| - 1])
  }

  lemma StepView(st: State, r: Row, previous: map<string, int>)
    ensures Step(st, r, previous) == ScanStep(st, ViewOf(r, previous))
  {
  }

  /** The loop over the rows is the loop over their views. */
  lemma {:induction false} RunIsScan(rows: seq<Row>, previous: map<string, int>)
    ensures Run(rows, previous) == Scan(Views(rows, previous))
    decreases |rows|
  {
    if rows != [] {
      var n := |rows| - 1;
      var p, r := rows[..n], rows[n];
      assert rows == p + [r];
      RunIsScan(p, previous);
      ViewsNext(p, r, previous);
      var vs := Views(rows, previous);
      assert vs[..n] == Views(p, previous);
      var before := Run(p, previous);
      if before.Success? && |before.value.players| < MaxPlayers {
        StepView(before.value, r, previous);
      }
    }
  }

  // ------------------------------------------------------- the reference

  /** Position `i` has a tag, and no earlier position has the same one. */
  predicate IsFirst(vs: seq<View>, i: nat)
    requires i < |vs|
  {
    vs[i].Tagged? && forall j :: 0 <= j < i && vs[j].Tagged? ==> vs[j].tag != vs[i].tag
  }

  /** The tags at all positions that have one. */
  function Tags(vs: seq<View>): set<string> {
    set j | 0 <= j < |vs| && vs[j].Tagged? :: vs[j].tag
  }

  /** The positions that are first with their tag, in increasing order, and no others. */
  function Firsts(vs: seq<View>): (idx: seq<nat>)
    ensures forall k :: 0 <= k < |idx| ==> idx[k] < |vs| && IsFirst(vs, idx[k])
    ensures forall k, l :: 0 <= k < l < |idx| ==> idx[k] < idx[l]
    ensures forall i :: 0 <= i < |vs| && IsFirst(vs, i) ==> i in idx
  {
    if vs == [] then []
    else
      var n := |vs| - 1;
      var p := vs[..n];
      assert forall i :: 0 <= i < n ==> (IsFirst(p, i) <==> IsFirst(vs, i));
      Firsts(p) + (if IsFirst(vs, n) then [n] else [])
  }

  /** The first `MaxPlayers` of those positions. */
  function Window(vs: seq<View>): (w: seq<nat>)
    ensures |w| <= MaxPlayers
    ensures forall k :: 0 <= k < |w| ==> w[k] < |vs| && IsFirst(vs, w[k])
    ensures forall k, l :: 0 <= k < l < |w| ==> w[k] < w[l]
  {
    var f := Firsts(vs);
    if |f| <= MaxPlayers then f else f[..MaxPlayers]
  }

  /** The window's tags are pairwise distinct. */
  lemma WindowDistinct(vs: seq<View>)
    ensures forall k, l :: 0 <= k < l < |Window(vs)| ==> vs[Window(vs)[k]].tag != vs[Window(vs)[l]].tag
  {
    var w := Window(vs);
    forall k, l | 0 <= k < l < |w| ensures vs[w[k]].tag != vs[w[l]].tag {
      assert w[k] < w[l] && IsFirst(vs, w[l]) && vs[w[k]].Tagged?;
    }
  }

  /** What reading each window position gives, in order. */
  function WindowEntries(vs: seq<View>): (es: seq<Result<Entry, Crash>>)
    ensures |es| == |Window(vs)|
  {
    EntriesAt(vs, Window(vs))
  }

  /** What reading the views at the given positions gives, in order. */
  function EntriesAt(vs: seq<View>, idx: seq<nat>): (es: seq<Result<Entry, Crash>>)
    requires forall k :: 0 <= k < |idx| ==> idx[k] < |vs| && vs[idx[k]].Tagged?
    ensures |es| == |idx|
  {
    seq(|idx|, k requires 0 <= k < |idx| => vs[idx[k]].entry)
  }

  /** Views added after the given positions do not change what is read there. */
  lemma EntriesAtLonger(vs: seq<View>, v: View, idx: seq<nat>)
    requires forall k :: 0 <= k < |idx| ==> idx[k] < |vs| && vs[idx[k]].Tagged?
    ensures EntriesAt(vs + [v], idx) == EntriesAt(vs, idx)
  {
    assert forall k :: 0 <= k < |idx| ==> (vs + [v])[idx[k]] == vs[idx[k]];
  }

  /** Reading one more position, that of the view just added, adds its entry. */
  lemma EntriesAtNew(vs: seq<View>, v: View, idx: seq<nat>)
    requires forall k :: 0 <= k < |idx| ==> idx[k] < |vs| && vs[idx[k]].Tagged?
    requires v.Tagged?
    ensures EntriesAt(vs + [v], idx + [|vs|]) == EntriesAt(vs, idx) + [v.entry]
  {
    var q, j := vs + [v], idx + [|vs|];
    assert forall k :: 0 <= k < |idx| ==> j[k] == idx[k] && q[idx[k]] == vs[idx[k]];
    assert q[j[|idx|]] == v;
  }

  /** Records the entries one after the other, none skipped, stopping at the first
      that failed. */
  function Fold(es: seq<Result<Entry, Crash>>): (r: Result<State, Crash>)
    ensures r.Success? ==> |r.value.players| == |es|
  {
    if es == [] then Success(State([], map[], {}))
    else
      match Fold(es[..|es| - 1])
      case Failure(e) => Failure(e)
      case Success(st) =>
        match es[|es| - 1]
        case Failure(e) => Failure(e)
        case Success(e) => Success(Add(st, e))
  }

  lemma FoldNext(es: seq<Result<Entry, Crash>>, e: Result<Entry, Crash>)
    ensures Fold(es).Failure? ==> Fold(es + [e]) == Fold(es)
    ensures Fold(es).Success? && e.Failure? ==> Fold(es + [e]) == Failure(e.error)
    ensures Fold(es).Success? && e.Success? ==> Fold(es + [e]) == Success(Add(Fold(es).value, e.value))
  {
    assert (es + [e])[..|es|] == es;
  }

  // ------------------------------------------------- steps of the reference

  lemma FirstsNext(vs: seq<View>, v: View)
    ensures Firsts(vs + [v]) == Firsts(vs) + (if IsFirst(vs + [v], |vs|) then [|vs|] else [])
  {
    assert (vs + [v])[..|vs|] == vs;
  }

  lemma IsFirstLast(vs: seq<View>, v: View)
    ensures IsFirst(vs + [v], |vs|) <==> v.Tagged? && v.tag !in Tags(vs)
  {
    var q := vs + [v];
    if v.Tagged? && v.tag in Tags(vs) {
      var j :| 0 <= j < |vs| && vs[j].Tagged? && vs[j].tag == v.tag;
      assert q[j] == vs[j];
    }
    assert forall j :: 0 <= j < |vs| ==> q[j] == vs[j];
  }

  lemma TagsNext(vs: seq<View>, v: View)
    ensures Tags(vs + [v]) == Tags(vs) + (if v.Tagged? then {v.tag} else {})
  {
    var q := vs + [v];
    assert forall j :: 0 <= j < |vs| ==> q[j] == vs[j];
    assert q[|vs|] == v;
  }

  lemma WindowNext(vs: seq<View>, v: View)
    ensures |Firsts(vs)| >= MaxPlayers || !IsFirst(vs + [v], |vs|) ==> Window(vs + [v]) == Window(vs)
    ensures |Firsts(vs)| < MaxPlayers && IsFirst(vs + [v], |vs|) ==> Window(vs + [v]) == Window(vs) + [|vs|]
  {
    FirstsNext(vs, v);
    var f := Firsts(vs);
    var extra := if IsFirst(vs + [v], |vs|) then [|vs|] else [];
    if |f| >= MaxPlayers {
      PrefixOfLonger(f, extra, MaxPlayers);
    }
  }

  /** Cutting a sequence that is at least `n` long before `n` ignores what follows it. */
  lemma PrefixOfLonger(a: seq<nat>, b: seq<nat>, n: nat)
    requires n <= |a|
    ensures (a + b)[..n] == a[..n]
  {
    assert forall k :: 0 <= k < n ==> (a + b)[k] == a[k];
  }

  lemma WindowEntriesNext(vs: seq<View>, v: View)
    ensures |Firsts(vs)| >= MaxPlayers || !IsFirst(vs + [v], |vs|) ==> WindowEntries(vs + [v]) == WindowEntries(vs)
    ensures |Firsts(vs)| < MaxPlayers && IsFirst(vs + [v], |vs|) ==> WindowEntries(vs + [v]) == WindowEntries(vs) + [v.entry]
  {
    WindowNext(vs, v);
    var w := Window(vs);
    if Window(vs + [v]) == w {
      EntriesAtLonger(vs, v, w);
    } else {
      EntriesAtNew(vs, v, w);
    }
  }

  // ------------------------------------------------------ facts about Scan

  /** A scan still reading has seen exactly the tags met so far. */
  lemma {:induction false} ScanSeen(vs: seq<View>)
    requires Coherent(vs)
    requires Scan(vs).Success? && |Scan(vs).value.players| < MaxPlayers
    ensures Scan(vs).value.seen == Tags(vs)
    decreases |vs|
  {
    if vs != [] {
      var n := |vs| - 1;
      var p := vs[..n];
      assert vs == p + [vs[n]];
      assert forall k :: 0 <= k < n ==> p[k] == vs[k];
      TagsNext(p, vs[n]);
      ScanSeen(p);
    }
  }

  /** The scan's outcome is the outcome of reading, in order, the first view with
      each tag, up to `MaxPlayers` of them. */
  lemma {:induction false} ScanReadsWindow(vs: seq<View>)
    requires Coherent(vs)
    ensures Scan(vs) == Fold(WindowEntries(vs))
    decreases |vs|
  {
    if vs != [] {
      var n := |vs| - 1;
      var p, v := vs[..n], vs[n];
      assert vs == p + [v];
      assert Coherent(p) by {
        assert forall k :: 0 <= k < n ==> p[k] == vs[k];
      }
      ScanReadsWindow(p);
      ScanReadsWindowNext(p, v);
    }
  }

  lemma ScanReadsWindowNext(p: seq<View>, v: View)
    requires Coherent(p) && Scan(p) == Fold(WindowEntries(p))
    ensures Scan(p + [v]) == Fold(WindowEntries(p + [v]))
  {
    ScanSnoc(p, v);
    WindowEntriesNext(p, v);
    IsFirstLast(p, v);
    var es := WindowEntries(p);
    var before := Scan(p);
    if before.Failure? {
      if v.Tagged? {
        FoldNext(es, v.entry);
      }
    } else if |before.value.players| >= MaxPlayers {
      assert |Firsts(p)| >= MaxPlayers;
    } else {
      assert |Firsts(p)| < MaxPlayers;
      ScanSeen(p);
      if v.Tagged? && v.tag !in before.value.seen {
        FoldNext(es, v.entry);
      }
    }
  }

  /** Recording entries without aborting gives one line per entry, in order. */
  lemma {:induction false} FoldLines(es: seq<Result<Entry, Crash>>)
    requires Fold(es).Success?
    ensures forall k :: 0 <= k < |es| ==> es[k].Success? && Fold(es).value.players[k] == es[k].value.line
    decreases |es|
  {
    if es != [] {
      var n := |es| - 1;
      var p := es[..n];
      assert forall k :: 0 <= k < n ==> p[k] == es[k];
      FoldLines(p);
    }
  }

  /** Recording entries without aborting keys the snapshot by exactly the tags
      seen, which are the entries' tags. */
  lemma {:induction false} FoldSeen(es: seq<Result<Entry, Crash>>)
    requires Fold(es).Success?
    ensures Fold(es).value.seen == Fold(es).value.today.Keys == set k | 0 <= k < |es| && es[k].Success? :: es[k].value.tag
    decreases |es|
  {
    if es != [] {
      var n := |es| - 1;
      var p := es[..n];
      FoldSeen(p);
      var tags := set k | 0 <= k < |es| && es[k].Success? :: es[k].value.tag;
      var before := set k | 0 <= k < n && p[k].Success? :: p[k].value.tag;
      assert forall k :: 0 <= k < n ==> p[k] == es[k];
      assert tags == before + {es[n].value.tag};
    }
  }

  /** When the entries' tags are distinct, recording them without aborting maps
      each tag to its entry's trophies. */
  lemma {:induction false} FoldToday(es: seq<Result<Entry, Crash>>)
    requires Fold(es).Success?
    requires forall k, l :: 0 <= k < l < |es| && es[k].Success? && es[l].Success? ==> es[k].value.tag != es[l].value.tag
    ensures forall k :: 0 <= k < |es| && es[k].Success? ==>
      es[k].value.tag in Fold(es).value.today && Fold(es).value.today[es[k].value.tag] == es[k].value.trophies
    decreases |es|
  {
    if es != [] {
      var n := |es| - 1;
      var p := es[..n];
      assert forall k :: 0 <= k < n ==> p[k] == es[k];
      FoldToday(p);
    }
  }

  /** Recording entries aborts exactly when one of them failed, with the error of
      the first failed one. */
  lemma {:induction false} FoldFailure(es: seq<Result<Entry, Crash>>)
    ensures Fold(es).Failure? <==> exists k :: 0 <= k < |es| && es[k].Failure?
    ensures Fold(es).Failure? ==> exists k :: (0 <= k < |es| && es[k] == Failure(Fold(es).error)
      && forall j :: 0 <= j < k ==> es[j].Success?)
    decreases |es|
  {
    if es != [] {
      var n := |es| - 1;
      var p := es[..n];
      assert forall k :: 0 <= k < n ==> p[k] == es[k];
      FoldFailure(p);
      if Fold(p).Success? {
        FoldLines(p);
      }
    }
  }

  // ------------------------------------------------------ facts about Run

  /** The loop's outcome is the outcome of reading, in order, the first row with
      each tag among those passing the filters, up to `MaxPlayers` of them. */
  lemma RunReadsWindow(rows: seq<Row>, previous: map<string, int>)
    ensures Run(rows, previous) == Fold(WindowEntries(Views(rows, previous)))
  {
    RunIsScan(rows, previous);
    ViewsCoherent(rows, previous);
    ScanReadsWindow(Views(rows, previous));
  }

  /** A run still reading has seen exactly the tags of the rows that passed the
      filters so far. */
  lemma RunSeen(rows: seq<Row>, previous: map<string, int>)
    requires Run(rows, previous).Success? && |Run(rows, previous).value.players| < MaxPlayers
    ensures Run(rows, previous).value.seen == Tags(Views(rows, previous))
  {
    RunIsScan(rows, previous);
    ViewsCoherent(rows, previous);
    ScanSeen(Views(rows, previous));
  }

  /** The rows the run reads: at most `MaxPlayers` of them, in page order, each
      passing the filters and the first row with its tag, with one line each. */
  lemma ExtractionSelects(rows: seq<Row>, previous: map<string, int>)
    requires Run(rows, previous).Success?
    ensures |Run(rows, previous).value.players| == |Window(Views(rows, previous))|
    ensures forall k :: 0 <= k < |Window(Views(rows, previous))| ==>
      var i := Window(Views(rows, previous))[k];
      Qualifies(rows[i]) && forall j :: 0 <= j < i && Qualifies(rows[j]) ==> TagOf(rows[j]) != TagOf(rows[i])
  {
    RunReadsWindow(rows, previous);
    var vs := Views(rows, previous);
    var w := Window(vs);
    forall k | 0 <= k < |w|
      ensures Qualifies(rows[w[k]]) && forall j :: 0 <= j < w[k] && Qualifies(rows[j]) ==> TagOf(rows[j]) != TagOf(rows[w[k]])
    {
      ViewsAt(rows, previous, w[k]);
      forall j | 0 <= j < w[k] && Qualifies(rows[j]) ensures TagOf(rows[j]) != TagOf(rows[w[k]]) {
        ViewsAt(rows, previous, j);
      }
    }
  }

  /** Every row that passes the filters and is the first with its tag is read,
      unless `MaxPlayers` such rows come before it. */
  lemma ExtractionComplete(rows: seq<Row>, previous: map<string, int>, i: nat)
    requires i < |rows| && Qualifies(rows[i])
    requires forall j :: 0 <= j < i && Qualifies(rows[j]) ==> TagOf(rows[j]) != TagOf(rows[i])
    ensures i in Firsts(Views(rows, previous))
  {
    var vs := Views(rows, previous);
    ViewsAt(rows, previous, i);
    forall j | 0 <= j < i && vs[j].Tagged? ensures vs[j].tag != vs[i].tag {
      ViewsAt(rows, previous, j);
    }
    assert IsFirst(vs, i);
  }

  /** Line `k` of a run that does not abort is the line read from the `k`-th selected row. */
  lemma ExtractionLines(rows: seq<Row>, previous: map<string, int>)
    requires Run(rows, previous).Success?
    ensures |Run(rows, previous).value.players| == |Window(Views(rows, previous))|
    ensures forall k :: 0 <= k < |Window(Views(rows, previous))| ==>
      var row := rows[Window(Views(rows, previous))[k]];
      Qualifies(row) && EntryOf(row, previous).Success? && Run(rows, previous).value.players[k] == EntryOf(row, previous).value.line
  {
    RunReadsWindow(rows, previous);
    var vs := Views(rows, previous);
    var w := Window(vs);
    var es := WindowEntries(vs);
    FoldLines(es);
    forall k | 0 <= k < |w|
      ensures Qualifies(rows[w[k]]) && EntryOf(rows[w[k]], previous).Success?
        && Run(rows, previous).value.players[k] == EntryOf(rows[w[k]], previous).value.line
    {
      ViewsAt(rows, previous, w[k]);
      assert es[k] == vs[w[k]].entry;
    }
  }

  /** The window's entries are those of the window's views; the ones read carry
      the window's tags, which are pairwise distinct. */
  lemma WindowEntriesTagged(vs: seq<View>)
    requires Coherent(vs)
    ensures forall k :: 0 <= k < |WindowEntries(vs)| ==> WindowEntries(vs)[k] == vs[Window(vs)[k]].entry
    ensures forall k :: 0 <= k < |WindowEntries(vs)| && WindowEntries(vs)[k].Success? ==>
      WindowEntries(vs)[k].value.tag == vs[Window(vs)[k]].tag
    ensures forall k, l :: 0 <= k < l < |WindowEntries(vs)| && WindowEntries(vs)[k].Success? && WindowEntries(vs)[l].Success? ==>
      WindowEntries(vs)[k].value.tag != WindowEntries(vs)[l].value.tag
  {
    WindowDistinct(vs);
  }

  /** Reading the window without aborting records, under each window tag, the
      trophies of that position's entry; the snapshot's keys are the seen tags. */
  lemma WindowSnapshot(vs: seq<View>)
    requires Coherent(vs) && Fold(WindowEntries(vs)).Success?
    ensures forall k :: 0 <= k < |Window(vs)| ==>
      var v := vs[Window(vs)[k]];
      v.entry.Success? && v.tag in Fold(WindowEntries(vs)).value.today
      && Fold(WindowEntries(vs)).value.today[v.tag] == v.entry.value.trophies
    ensures Fold(WindowEntries(vs)).value.today.Keys == Fold(WindowEntries(vs)).value.seen
  {
    var es := WindowEntries(vs);
    WindowEntriesTagged(vs);
    FoldSeen(es);
    FoldLines(es);
    FoldToday(es);
  }

  /** Every tag seen while reading the window without aborting is a window tag
      (and each window tag is in the snapshot, by `WindowSnapshot`). */
  lemma WindowSeen(vs: seq<View>)
    requires Coherent(vs) && Fold(WindowEntries(vs)).Success?
    ensures forall t :: t in Fold(WindowEntries(vs)).value.seen ==>
      exists k :: 0 <= k < |Window(vs)| && vs[Window(vs)[k]].tag == t
  {
    var w := Window(vs);
    var es := WindowEntries(vs);
    WindowEntriesTagged(vs);
    FoldSeen(es);
    forall t | t in Fold(es).value.seen ensures exists k :: 0 <= k < |w| && vs[w[k]].tag == t {
      var k :| 0 <= k < |es| && es[k].Success? && es[k].value.tag == t;
      assert vs[w[k]].tag == t;
    }
  }

  /** Today's snapshot of a run that does not abort maps the tag of each selected
      row to the trophies read from that row, and its keys are the seen tags. */
  lemma ExtractionSnapshot(rows: seq<Row>, previous: map<string, int>)
    requires Run(rows, previous).Success?
    ensures forall k :: 0 <= k < |Window(Views(rows, previous))| ==>
      var row := rows[Window(Views(rows, previous))[k]];
      Qualifies(row) && EntryOf(row, previous).Success? && TagOf(row) in Run(rows, previous).value.today
      && Run(rows, previous).value.today[TagOf(row)] == EntryOf(row, previous).value.trophies
    ensures Run(rows, previous).value.today.Keys == Run(rows, previous).value.seen
  {
    RunReadsWindow(rows, previous);
    ViewsCoherent(rows, previous);
    var vs := Views(rows, previous);
    var w := Window(vs);
    WindowSnapshot(vs);
    forall k | 0 <= k < |w|
      ensures Qualifies(rows[w[k]]) && vs[w[k]].entry == EntryOf(rows[w[k]], previous) && vs[w[k]].tag == TagOf(rows[w[k]])
    {
      ViewsAt(rows, previous, w[k]);
    }
  }

  /** Every tag a run that does not abort has seen is the tag of a selected row
      (and each selected row's tag is in the snapshot, by `ExtractionSnapshot`). */
  lemma ExtractionSeen(rows: seq<Row>, previous: map<string, int>, t: string)
    requires Run(rows, previous).Success? && t in Run(rows, previous).value.seen
    ensures exists k :: (0 <= k < |Window(Views(rows, previous))| && Qualifies(rows[Window(Views(rows, previous))[k]])
      && TagOf(rows[Window(Views(rows, previous))[k]]) == t)
  {
    RunReadsWindow(rows, previous);
    ViewsCoherent(rows, previous);
    var vs := Views(rows, previous);
    var w := Window(vs);
    WindowSeen(vs);
    var k :| 0 <= k < |w| && vs[w[k]].tag == t;
    ViewsAt(rows, previous, w[k]);
    assert Qualifies(rows[w[k]]) && TagOf(rows[w[k]]) == t;
  }

  /** A run aborts exactly when one of the selected rows cannot be read; rows
      outside the selection never abort it. */
  lemma ExtractionFailure(rows: seq<Row>, previous: map<string, int>)
    ensures Run(rows, previous).Failure? <==>
      exists k :: 0 <= k < |Window(Views(rows, previous))| && Qualifies(rows[Window(Views(rows, previous))[k]])
        && EntryOf(rows[Window(Views(rows, previous))[k]], previous).Failure?
  {
    RunReadsWindow(rows, previous);
    var w := Window(Views(rows, previous));
    var es := WindowEntries(Views(rows, previous));
    FoldFailure(es);
    if Run(rows, previous).Failure? {
      var k :| 0 <= k < |es| && es[k].Failure?;
      SelectedEntry(rows, previous, k);
    } else {
      forall k | 0 <= k < |w| && Qualifies(rows[w[k]])
        ensures EntryOf(rows[w[k]], previous).Success?
      {
        SelectedEntry(rows, previous, k);
      }
    }
  }

  /** An aborted run carries the error of the first selected row that cannot be
      read; every selected row before it is read. */
  lemma ExtractionFirstError(rows: seq<Row>, previous: map<string, int>)
    requires Run(rows, previous).Failure?
    ensures exists k :: (0 <= k < |Window(Views(rows, previous))| && Qualifies(rows[Window(Views(rows, previous))[k]])
      && EntryOf(rows[Window(Views(rows, previous))[k]], previous) == Failure(Run(rows, previous).error)
      && forall j :: 0 <= j < k ==> (Qualifies(rows[Window(Views(rows, previous))[j]])
        && EntryOf(rows[Window(Views(rows, previous))[j]], previous).Success?))
  {
    RunReadsWindow(rows, previous);
    var w := Window(Views(rows, previous));
    var es := WindowEntries(Views(rows, previous));
    FoldFailure(es);
    var k :| 0 <= k < |es| && es[k] == Failure(Run(rows, previous).error) && forall j :: 0 <= j < k ==> es[j].Success?;
    SelectedEntry(rows, previous, k);
    forall j | 0 <= j < k
      ensures Qualifies(rows[w[j]]) && EntryOf(rows[w[j]], previous).Success?
    {
      SelectedEntry(rows, previous, j);
    }
  }

  /** The `k`-th window entry is what reading the `k`-th selected row gives. */
  lemma SelectedEntry(rows: seq<Row>, previous: map<string, int>, k: nat)
    requires k < |Window(Views(rows, previous))|
    ensures Qualifies(rows[Window(Views(rows, previous))[k]])
    ensures WindowEntries(Views(rows, previous))[k] == EntryOf(rows[Window(Views(rows, previous))[k]], previous)
  {
    var vs := Views(rows, previous);
    var w := Window(vs);
    ViewsAt(rows, previous, w[k]);
    assert WindowEntries(vs)[k] == vs[w[k]].entry;
  }

  /** The views of two stretches of rows, one after the other. */
  lemma {:induction false} ViewsAppend(a: seq<Row>, b: seq<Row>, previous: map<string, int>)
    ensures Views(a + b, previous) == Views(a, previous) + Views(b, previous)
    decreases |b|
  {
    if b == [] {
      assert a + b == a;
    } else {
      var init, last := b[..|b| - 1], b[|b| - 1];
      Snoc(b);
      Assoc(a, init, [last]);
      ViewsAppend(a, init, previous);
      ViewsNext(a + init, last, previous);
      ViewsNext(init, last, previous);
    }
  }

  /** The scan on `vs + [v]`: the scan on `vs`, then the loop body on `v` unless
      the scan on `vs` is final. */
  lemma ScanSnoc(vs: seq<View>, v: View)
    ensures Scan(vs + [v]) ==
      if Scan(vs).Failure? || |Scan(vs).value.players| >= MaxPlayers then Scan(vs)
      else ScanStep(Scan(vs).value, v)
  {
    assert (vs + [v])[..|vs|] == vs;
  }

  /** Changing nothing in the outcome of `p` changes nothing in any longer scan. */
  lemma {:induction false} ScanSameAfter(p: seq<View>, q: seq<View>, s: seq<View>)
    requires Scan(p) == Scan(q)
    ensures Scan(p + s) == Scan(q + s)
    decreases |s|
  {
    if s == [] {
      assert p + s == p && q + s == q;
    } else {
      var init, last := s[..|s| - 1], s[|s| - 1];
      ScanSameAfter(p, q, init);
      assert p + s == (p + init) + [last];
      assert q + s == (q + init) + [last];
      ScanSnoc(p + init, last);
      ScanSnoc(q + init, last);
    }
  }

  /** A row with fewer than three cells, or without `#` in its second cell,
      changes nothing wherever it stands. */
  lemma SkipMalformed(p: seq<Row>, r: Row, s: seq<Row>, previous: map<string, int>)
    requires !Qualifies(r)
    ensures Run(p + [r] + s, previous) == Run(p + s, previous)
  {
    var vp := Views(p, previous);
    RunIsScan(p + [r] + s, previous);
    RunIsScan(p + s, previous);
    ViewsAppend(p + [r], s, previous);
    ViewsAppend(p, s, previous);
    ViewsNext(p, r, previous);
    assert ViewOf(r, previous) == Skipped;
    ScanSnoc(vp, Skipped);
    ScanSameAfter(vp + [Skipped], vp, Views(s, previous));
  }

  /** A row whose tag an earlier qualifying row already has changes nothing:
      the first occurrence wins. */
  lemma SkipDuplicate(p: seq<Row>, j: nat, r: Row, s: seq<Row>, previous: map<string, int>)
    requires j < |p| && Qualifies(p[j]) && Qualifies(r) && TagOf(p[j]) == TagOf(r)
    ensures Run(p + [r] + s, previous) == Run(p + s, previous)
  {
    var vp := Views(p, previous);
    var v := ViewOf(r, previous);
    RunIsScan(p + [r] + s, previous);
    RunIsScan(p + s, previous);
    ViewsAppend(p + [r], s, previous);
    ViewsAppend(p, s, previous);
    ViewsNext(p, r, previous);
    assert v.Tagged? && v.tag == TagOf(r);
    ScanSnoc(vp, v);
    var before := Scan(vp);
    if before.Success? && |before.value.players| < MaxPlayers {
      ViewsCoherent(p, previous);
      ScanSeen(vp);
      ViewsAt(p, previous, j);
      assert v.tag in Tags(vp);
    }
    ScanSameAfter(vp + [v], vp, Views(s, previous));
  }

  /** Once `MaxPlayers` lines exist (or the run aborted) no later row is examined. */
  lemma StopsWhenFull(p: seq<Row>, s: seq<Row>, previous: map<string, int>)
    requires Run(p, previous).Failure? || |Run(p, previous).value.players| == MaxPlayers
    ensures Run(p + s, previous) == Run(p, previous)
  {
    assert (p + s)[..|p|] == p;
    RunSettled(p + s, |p|, previous);
  }
}
