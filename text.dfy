/**
 * The string operations the leaderboard script applies to page text:
 * Python's `str.strip`, the first and last piece of `str.split`, the digit
 * filter, and `str.join` together with its inverse `str.split`.
 */
module Text {

  /** Python's `str.isspace` for one character. */
  predicate IsSpace(c: char) {
    || c == ' ' || c == '\t' || c == '\n' || c == '\r' || c == '\U{0B}' || c == '\U{0C}'
    || ('\U{1C}' <= c <= '\U{1F}') || c == '\U{85}' || c == '\U{A0}' || c == '\U{1680}'
    || ('\U{2000}' <= c <= '\U{200A}') || c == '\U{2028}' || c == '\U{2029}'
    || c == '\U{202F}' || c == '\U{205F}' || c == '\U{3000}'
  }

  /** ASCII decimal digits; see README for why the model stops at ASCII. */
  predicate IsDigit(c: char) {
    '0' <= c <= '9'
  }

  predicate AllSpace(s: string) {
    forall k :: 0 <= k < |s| ==> IsSpace(s[k])
  }

  predicate AllDigits(s: string) {
    forall k :: 0 <= k < |s| ==> IsDigit(s[k])
  }

  /** Neither end of `s` is whitespace: what `str.strip` returns. */
  predicate IsTrimmed(s: string) {
    s == [] || (!IsSpace(s[0]) && !IsSpace(s[|s| - 1]))
  }

  /** `s` without its leading whitespace: Python's `s.lstrip()`. */
  function TrimStart(s: string): string {
    if s != [] && IsSpace(s[0]) then TrimStart(s[1..]) else s
  }

  /** `s` without its trailing whitespace: Python's `s.rstrip()`. */
  function TrimEnd(s: string): string {
    if s != [] && IsSpace(s[|s| - 1]) then TrimEnd(s[..|s| - 1]) else s
  }

  /** Python's `s.strip()`: `s` without its leading and trailing whitespace. */
  function Strip(s: string): string {
    TrimEnd(TrimStart(s))
  }

  /** Trimming the front drops a run of whitespace and stops at the first other character. */
  lemma {:induction false} TrimStartShape(s: string)
    ensures |TrimStart(s)| <= |s| && TrimStart(s) == s[|s| - |TrimStart(s)|..]
    ensures AllSpace(s[..|s| - |TrimStart(s)|])
    ensures TrimStart(s) == [] || !IsSpace(TrimStart(s)[0])
    decreases |s|
  {
    if s != [] && IsSpace(s[0]) {
      var rest := s[1..];
      TrimStartShape(rest);
      var m := |rest| - |TrimStart(rest)|;
      assert s[m + 1..] == rest[m..];
      assert s[..m + 1] == [s[0]] + rest[..m];
      SpacesAround([s[0]], rest[..m]);
    }
  }

  /** Trimming the back drops a run of whitespace and stops at the last other character. */
  lemma {:induction false} TrimEndShape(s: string)
    ensures |TrimEnd(s)| <= |s| && TrimEnd(s) == s[..|TrimEnd(s)|]
    ensures AllSpace(s[|TrimEnd(s)|..])
    ensures TrimEnd(s) == [] || !IsSpace(TrimEnd(s)[|TrimEnd(s)| - 1])
    decreases |s|
  {
    if s != [] && IsSpace(s[|s| - 1]) {
      var init := s[..|s| - 1];
      TrimEndShape(init);
      var m := |TrimEnd(init)|;
      assert init[..m] == s[..m];
      assert s[m..] == init[m..] + [s[|s| - 1]];
      SpacesAround(init[m..], [s[|s| - 1]]);
    }
  }

  /** Two runs of whitespace make one. */
  lemma SpacesAround(v: string, w: string)
    requires AllSpace(v) && AllSpace(w)
    ensures AllSpace(v + w)
  {
    forall k | 0 <= k < |v + w| ensures IsSpace((v + w)[k]) {
      if k >= |v| {
        assert (v + w)[k] == w[k - |v|];
      }
    }
  }

  /** What `str.strip` returns has no whitespace at either end, and is no longer than its input. */
  lemma StripTrimmed(s: string)
    ensures IsTrimmed(Strip(s)) && |Strip(s)| <= |s|
  {
    var t := TrimStart(s);
    TrimStartShape(s);
    TrimEndShape(t);
    var r := TrimEnd(t);
    if r != [] {
      assert r[0] == t[0];
    }
  }

  /** The stripped text is a run of `s` with only whitespace on either side. */
  lemma StripKeepsMiddle(s: string)
    ensures exists a :: (0 <= a <= |s| - |Strip(s)| && AllSpace(s[..a]) && AllSpace(s[a + |Strip(s)|..])
      && s == s[..a] + Strip(s) + s[a + |Strip(s)|..])
  {
    var t := TrimStart(s);
    var r := Strip(s);
    TrimStartShape(s);
    TrimEndShape(t);
    var a := |s| - |t|;
    assert s[a + |r|..] == t[|r|..];
    Pieces(s, a, a + |r|);
    assert s[a..a + |r|] == r;
  }

  /** A text is its three pieces around two cut points. */
  lemma Pieces(s: string, a: nat, b: nat)
    requires a <= b <= |s|
    ensures s == s[..a] + s[a..b] + s[b..]
  {
    assert s[..a] + s[a..b] == s[..b];
  }

  /** Leading whitespace in front of a text that starts otherwise is trimmed away. */
  lemma {:induction false} TrimStartSpaces(w: string, x: string)
    requires AllSpace(w) && (x == [] || !IsSpace(x[0]))
    ensures TrimStart(w + x) == x
    decreases |w|
  {
    if w != [] {
      assert (w + x)[1..] == w[1..] + x;
      TrimStartSpaces(w[1..], x);
    } else {
      assert w + x == x;
    }
  }

  /** Trailing whitespace after a text that ends otherwise is trimmed away. */
  lemma {:induction false} TrimEndSpaces(x: string, w: string)
    requires AllSpace(w) && (x == [] || !IsSpace(x[|x| - 1]))
    ensures TrimEnd(x + w) == x
    decreases |w|
  {
    if w != [] {
      assert (x + w)[..|x + w| - 1] == x + w[..|w| - 1];
      TrimEndSpaces(x, w[..|w| - 1]);
    } else {
      assert x + w == x;
    }
  }

  /** Stripping removes exactly the surrounding whitespace and nothing else. */
  lemma StripSurrounded(w1: string, t: string, w2: string)
    requires AllSpace(w1) && AllSpace(w2) && IsTrimmed(t)
    ensures Strip(w1 + t + w2) == t
  {
    if t == [] {
      var w := w1 + w2;
      assert w1 + t + w2 == w + [];
      SpacesAround(w1, w2);
      TrimStartSpaces(w, []);
    } else {
      assert w1 + t + w2 == w1 + (t + w2);
      TrimStartSpaces(w1, t + w2);
      TrimEndSpaces(t, w2);
    }
  }

  /** Stripping twice is stripping once. */
  lemma StripIdempotent(s: string)
    ensures Strip(Strip(s)) == Strip(s)
  {
    StripTrimmed(s);
    StripSurrounded([], Strip(s), []);
    assert [] + Strip(s) + [] == Strip(s);
  }

  /** Where the text after the last `sep` begins: just past that separator, or 0 without one. */
  function LastPieceStart(s: string, sep: char): (i: nat)
    ensures i <= |s|
  {
    if s == [] then 0
    else if s[|s| - 1] == sep then |s|
    else LastPieceStart(s[..|s| - 1], sep)
  }

  /** Python's `s.split(sep)[-1]`: the text after the last `sep`, or all of `s`. */
  function AfterLast(s: string, sep: char): string {
    s[LastPieceStart(s, sep)..]
  }

  /** The piece after the last separator is a suffix of the text, preceded by
      the separator unless it is the whole text. */
  lemma {:induction false} AfterLastShape(s: string, sep: char)
    ensures |AfterLast(s, sep)| <= |s| && AfterLast(s, sep) == s[|s| - |AfterLast(s, sep)|..]
    ensures |AfterLast(s, sep)| < |s| ==> s[|s| - |AfterLast(s, sep)| - 1] == sep
    decreases |s|
  {
    if s != [] && s[|s| - 1] != sep {
      var init := s[..|s| - 1];
      AfterLastShape(init, sep);
      var i := LastPieceStart(init, sep);
      if i > 0 {
        assert s[i - 1] == init[i - 1];
      }
    }
  }

  /** The piece after the last separator holds no separator. */
  lemma {:induction false} AfterLastFree(s: string, sep: char)
    ensures sep !in AfterLast(s, sep)
    decreases |s|
  {
    if s != [] && s[|s| - 1] != sep {
      var init := s[..|s| - 1];
      AfterLastFree(init, sep);
      var i := LastPieceStart(init, sep);
      SuffixSnoc(s, i);
      NotInSnoc(init[i..], s[|s| - 1], sep);
    }
  }

  /** An element missing from a sequence and different from `c` is missing after `c` is appended. */
  lemma NotInSnoc<T>(q: seq<T>, c: T, x: T)
    requires x !in q && x != c
    ensures x !in q + [c]
  {
  }

  /** A suffix of the front, followed by the last element, is a suffix of the whole. */
  lemma SuffixSnoc<T>(s: seq<T>, n: nat)
    requires n < |s|
    ensures s[..|s| - 1][n..] + [s[|s| - 1]] == s[n..]
  {
  }

  /** What follows the last separator does not depend on what comes before it. */
  lemma AfterLastSeparator(x: string, sep: char, t: string)
    requires sep !in t
    ensures AfterLast(x + [sep] + t, sep) == t
  {
    LastPieceStartSeparator(x, sep, t);
    assert (x + [sep] + t)[|x| + 1..] == t;
  }

  lemma {:induction false} LastPieceStartSeparator(x: string, sep: char, t: string)
    requires sep !in t
    ensures LastPieceStart(x + [sep] + t, sep) == |x| + 1
    decreases |t|
  {
    var s := x + [sep] + t;
    if t != [] {
      var init := t[..|t| - 1];
      assert s[..|s| - 1] == x + [sep] + init;
      assert s[|s| - 1] == t[|t| - 1];
      LastPieceStartSeparator(x, sep, init);
    } else {
      assert s[|s| - 1] == sep;
    }
  }

  /** Where the text before the first `sep` ends: at that separator, or at the end without one. */
  function FirstPieceEnd(s: string, sep: char): (i: nat)
    ensures i <= |s|
  {
    if s == [] || s[0] == sep then 0 else 1 + FirstPieceEnd(s[1..], sep)
  }

  /** Python's `s.split(sep)[0]`: the text before the first `sep`, or all of `s`. */
  function BeforeFirst(s: string, sep: char): string {
    s[..FirstPieceEnd(s, sep)]
  }

  /** The piece before the first separator is a prefix of the text without the
      separator, followed by the separator unless it is the whole text. */
  lemma {:induction false} BeforeFirstShape(s: string, sep: char)
    ensures |BeforeFirst(s, sep)| <= |s| && BeforeFirst(s, sep) == s[..|BeforeFirst(s, sep)|]
    ensures sep !in BeforeFirst(s, sep)
    ensures |BeforeFirst(s, sep)| < |s| ==> s[|BeforeFirst(s, sep)|] == sep
    decreases |s|
  {
    if s != [] && s[0] != sep {
      var rest := s[1..];
      BeforeFirstShape(rest, sep);
      var i := FirstPieceEnd(rest, sep);
      assert s[..i + 1] == [s[0]] + rest[..i];
      if i < |rest| {
        assert s[i + 1] == rest[i];
      }
    }
  }

  /** What precedes the first separator does not depend on what comes after it. */
  lemma BeforeFirstSeparator(t: string, sep: char, x: string)
    requires sep !in t
    ensures BeforeFirst(t + [sep] + x, sep) == t
  {
    FirstPieceEndSeparator(t, sep, x);
    assert (t + [sep] + x)[..|t|] == t;
  }

  lemma {:induction false} FirstPieceEndSeparator(t: string, sep: char, x: string)
    requires sep !in t
    ensures FirstPieceEnd(t + [sep] + x, sep) == |t|
    decreases |t|
  {
    var s := t + [sep] + x;
    if t != [] {
      assert s[0] == t[0];
      assert s[1..] == t[1..] + [sep] + x;
      FirstPieceEndSeparator(t[1..], sep, x);
    } else {
      assert s[0] == sep;
    }
  }

  /** The digit characters of `s`, in order: `"".join(c for c in s if c.isdigit())`. */
  function Digits(s: string): string {
    if s == [] then [] else Digits(s[..|s| - 1]) + (if IsDigit(s[|s| - 1]) then [s[|s| - 1]] else [])
  }

  /** The filter keeps only digits and never lengthens the text. */
  lemma {:induction false} DigitsShape(s: string)
    ensures AllDigits(Digits(s)) && |Digits(s)| <= |s|
    decreases |s|
  {
    if s != [] {
      var init := Digits(s[..|s| - 1]);
      DigitsShape(s[..|s| - 1]);
      var r := Digits(s);
      forall k | 0 <= k < |r| ensures IsDigit(r[k]) {
        if k < |init| {
          assert r[k] == init[k];
        }
      }
    }
  }

  /** The filter keeps a text of digits whole. */
  lemma {:induction false} DigitsOfDigits(s: string)
    requires AllDigits(s)
    ensures Digits(s) == s
    decreases |s|
  {
    if s != [] {
      var init := s[..|s| - 1];
      assert AllDigits(init) by {
        forall k | 0 <= k < |init| ensures IsDigit(init[k]) { assert init[k] == s[k]; }
      }
      DigitsOfDigits(init);
      assert Digits(s) == init + [s[|s| - 1]];
    }
  }

  /** The filter empties a text of whitespace. */
  lemma {:induction false} DigitsOfSpace(s: string)
    requires AllSpace(s)
    ensures Digits(s) == []
    decreases |s|
  {
    if s != [] {
      var init := s[..|s| - 1];
      assert AllSpace(init) by {
        forall k | 0 <= k < |init| ensures IsSpace(init[k]) { assert init[k] == s[k]; }
      }
      DigitsOfSpace(init);
      assert !IsDigit(s[|s| - 1]);
    }
  }

  /** The filter comes out empty exactly when the text holds no digit. */
  lemma {:induction false} DigitsEmpty(s: string)
    ensures Digits(s) == [] <==> forall k :: 0 <= k < |s| ==> !IsDigit(s[k])
    decreases |s|
  {
    if s != [] {
      var init := s[..|s| - 1];
      var last := s[|s| - 1];
      DigitsEmpty(init);
      if IsDigit(last) {
        assert Digits(s) != [];
      } else {
        assert Digits(s) == Digits(init);
        assert (forall k :: 0 <= k < |s| ==> !IsDigit(s[k])) <==> (forall k :: 0 <= k < |init| ==> !IsDigit(init[k])) by {
          assert forall k :: 0 <= k < |init| ==> init[k] == s[k];
        }
      }
    }
  }

  /** Filtering digits distributes over concatenation, so their order is kept. */
  lemma {:induction false} DigitsAppend(a: string, b: string)
    ensures Digits(a + b) == Digits(a) + Digits(b)
    decreases |b|
  {
    if b == [] {
      assert a + b == a;
    } else {
      var init := b[..|b| - 1];
      assert (a + b)[..|a + b| - 1] == a + init;
      DigitsAppend(a, init);
    }
  }

  /** Python's `sep.join(parts)`. */
  function Join(sep: string, parts: seq<string>): string {
    if parts == [] then []
    else if |parts| == 1 then parts[0]
    else Join(sep, parts[..|parts| - 1]) + sep + parts[|parts| - 1]
  }

  /** Python's `s.split(sep)` for a one-character separator. */
  function Split(s: string, sep: char): (pieces: seq<string>)
    ensures |pieces| >= 1
  {
    if s == [] then [[]]
    else
      var init := Split(s[..|s| - 1], sep);
      if s[|s| - 1] == sep then init + [[]]
      else init[..|init| - 1] + [init[|init| - 1] + [s[|s| - 1]]]
  }

  /** No piece of a split holds the separator. */
  lemma {:induction false} SplitPieces(s: string, sep: char)
    ensures forall k :: 0 <= k < |Split(s, sep)| ==> sep !in Split(s, sep)[k]
    decreases |s|
  {
    if s != [] {
      var init := Split(s[..|s| - 1], sep);
      SplitPieces(s[..|s| - 1], sep);
      var c := s[|s| - 1];
      if c != sep {
        var front := init[..|init| - 1];
        assert Split(s, sep) == front + [init[|init| - 1] + [c]];
        assert forall k :: 0 <= k < |front| ==> front[k] == init[k];
      }
    }
  }

  /** Splitting a joined text gives back its parts when no part holds the separator. */
  lemma {:induction false} SplitJoin(parts: seq<string>, sep: char)
    requires parts != []
    requires forall k :: 0 <= k < |parts| ==> sep !in parts[k]
    ensures Split(Join([sep], parts), sep) == parts
    decreases |parts|
  {
    var last := parts[|parts| - 1];
    if |parts| == 1 {
      SplitNoSeparator(last, sep);
    } else {
      var init := parts[..|parts| - 1];
      forall k | 0 <= k < |init| ensures sep !in init[k] {
        assert init[k] == parts[k];
      }
      SplitJoin(init, sep);
      assert parts == init + [last];
      JoinSnoc([sep], init, last);
      SplitAppend(Join([sep], init), sep, last);
    }
  }

  /** A text without the separator splits into itself alone. */
  lemma {:induction false} SplitNoSeparator(t: string, sep: char)
    requires sep !in t
    ensures Split(t, sep) == [t]
    decreases |t|
  {
    if t != [] {
      SplitNoSeparator(t[..|t| - 1], sep);
      assert t[..|t| - 1] + [t[|t| - 1]] == t;
    }
  }

  /** Appending a separator and a separator-free text adds exactly one piece. */
  lemma {:induction false} SplitAppend(s: string, sep: char, t: string)
    requires sep !in t
    ensures Split(s + [sep] + t, sep) == Split(s, sep) + [t]
    decreases |t|
  {
    if t == [] {
      assert (s + [sep] + t)[..|s| + 1 - 1] == s;
      assert s + [sep] + t == s + [sep];
    } else {
      var init := t[..|t| - 1];
      assert (s + [sep] + t)[..|s + [sep] + t| - 1] == s + [sep] + init;
      SplitAppend(s, sep, init);
      assert init + [t[|t| - 1]] == t;
    }
  }

  /** Joining one more part adds the separator and that part. */
  lemma JoinSnoc(sep: string, parts: seq<string>, p: string)
    requires parts != []
    ensures Join(sep, parts + [p]) == Join(sep, parts) + sep + p
  {
    assert (parts + [p])[..|parts|] == parts;
  }

  /** Joining the pieces of a split gives back the text. */
  lemma {:induction false} JoinSplit(s: string, sep: char)
    ensures Join([sep], Split(s, sep)) == s
    decreases |s|
  {
    if s != [] {
      JoinSplit(s[..|s| - 1], sep);
      JoinSplitLast(s, sep);
    }
  }

  /** The step of `JoinSplit`: one more character at the end. */
  lemma JoinSplitLast(s: string, sep: char)
    requires s != [] && Join([sep], Split(s[..|s| - 1], sep)) == s[..|s| - 1]
    ensures Join([sep], Split(s, sep)) == s
  {
    var init, c := s[..|s| - 1], s[|s| - 1];
    var pieces := Split(init, sep);
    Snoc(s);
    if c == sep {
      JoinSnoc([sep], pieces, []);
    } else {
      var front, lastp := pieces[..|pieces| - 1], pieces[|pieces| - 1];
      Snoc(pieces);
      if |pieces| == 1 {
        assert Join([sep], [lastp + [c]]) == lastp + [c];
      } else {
        JoinSnoc([sep], front, lastp);
        JoinSnoc([sep], front, lastp + [c]);
        Assoc(Join([sep], front) + [sep], lastp, [c]);
      }
    }
  }

  lemma Assoc<T>(a: seq<T>, b: seq<T>, c: seq<T>)
    ensures a + (b + c) == (a + b) + c
  {
  }

  /** A non-empty sequence is its front followed by its last element. */
  lemma Snoc<T>(s: seq<T>)
    requires s != []
    ensures s == s[..|s| - 1] + [s[|s| - 1]]
  {
  }
}
