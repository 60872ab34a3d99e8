/** The text preview `renderMatrix` of site/app.js: at most `maxRows` rows of at
    most `maxCols` formatted values, values separated by two spaces, rows by line
    breaks, and a final "..." line when anything was cut off. Number formatting
    (`toFixed(3)`) is the parameter `fmt`. */
module Preview {
  import opened Matrices

  function Min(a: nat, b: nat): (c: nat)
    ensures c <= a && c <= b && (c == a || c == b)
  {
    if a < b then a else b
  }

  /** `parts.join(sep)`: the parts with `sep` between neighbours, "" for no parts. */
  function Join(parts: seq<string>, sep: string): string {
    if |parts| == 0 then ""
    else if |parts| == 1 then parts[0]
    else Join(parts[..|parts| - 1], sep) + sep + parts[|parts| - 1]
  }

  /** How often `c` occurs in `s`. */
  function Occurrences(s: string, c: char): nat {
    multiset(s)[c]
  }

  /** How often `c` occurs in the parts together. */
  function TotalOccurrences(parts: seq<string>, c: char): nat {
    if |parts| == 0 then 0
    else TotalOccurrences(parts[..|parts| - 1], c) + Occurrences(parts[|parts| - 1], c)
  }

  lemma OneMore(n: int, k: int)
    ensures (n - 1) * k + k == n * k
  {
  }

  lemma JoinSnocOccurrences(parts: seq<string>, sep: string, c: char)
    requires |parts| > 1
    ensures Occurrences(Join(parts, sep), c)
         == Occurrences(Join(parts[..|parts| - 1], sep), c) + Occurrences(sep, c) + Occurrences(parts[|parts| - 1], c)
  {
    var joined, last := Join(parts[..|parts| - 1], sep), parts[|parts| - 1];
    assert Join(parts, sep) == joined + sep + last;
    assert multiset(joined + sep + last) == multiset(joined) + multiset(sep) + multiset(last);
  }

  /** A join holds what its parts hold, and the separator once between each pair. */
  lemma {:induction false} JoinOccurrences(parts: seq<string>, sep: string, c: char)
    requires |parts| > 0
    ensures Occurrences(Join(parts, sep), c) == TotalOccurrences(parts, c) + (|parts| - 1) * Occurrences(sep, c)
  {
    if |parts| > 1 {
      var init := parts[..|parts| - 1];
      JoinOccurrences(init, sep, c);
      JoinSnocOccurrences(parts, sep, c);
      OneMore(|init|, Occurrences(sep, c));
    } else {
      assert parts[..0] == [];
    }
  }

  /** Parts none of which contains `c` hold no `c` together. */
  lemma {:induction false} NoOccurrences(parts: seq<string>, c: char)
    requires forall t :: 0 <= t < |parts| ==> c !in parts[t]
    ensures TotalOccurrences(parts, c) == 0
  {
    if |parts| > 0 {
      NoOccurrences(parts[..|parts| - 1], c);
      assert c !in multiset(parts[|parts| - 1]);
    }
  }

  /** Each value formatted. */
  function Formatted(xs: seq<real>, fmt: real -> string): (ss: seq<string>)
    ensures |ss| == |xs|
    ensures forall t :: 0 <= t < |xs| ==> ss[t] == fmt(xs[t])
  {
    seq(|xs|, t requires 0 <= t < |xs| => fmt(xs[t]))
  }

  /** Rows or columns beyond the caps are not shown. */
  predicate Truncated(m: Matrix, maxRows: nat, maxCols: nat)
    requires |m| > 0
  {
    |m| > Min(|m|, maxRows) || |m[0]| > Min(|m[0]|, maxCols)
  }

  /** The lines of `renderMatrix(m, maxRows, maxCols)`: row i shows the first
      min(|m[0]|, maxCols) values of m[i] (fewer if m[i] is shorter, as `slice` does).
      There are min(|m|, maxRows) value lines, and one more, "...", exactly when
      rows or columns were cut off; so there is always at least one line. */
  function RenderLines(m: Matrix, maxRows: nat, maxCols: nat, fmt: real -> string): (lines: seq<string>)
    requires |m| > 0
    ensures |lines| == Min(|m|, maxRows) + if Truncated(m, maxRows, maxCols) then 1 else 0
    ensures |lines| >= 1
    ensures Truncated(m, maxRows, maxCols) ==> lines[Min(|m|, maxRows)] == "..."
    ensures Truncated(m, maxRows, maxCols) <==> (|m| > maxRows || |m[0]| > maxCols)
  {
    var rows := Min(|m|, maxRows);
    var cols := Min(|m[0]|, maxCols);
    var view := seq(rows, i requires 0 <= i < rows => Join(Formatted(m[i][..Min(cols, |m[i]|)], fmt), "  "));
    if |m| > rows || |m[0]| > cols then view + ["..."] else view
  }

  /** `renderMatrix(m, maxRows, maxCols)`: the lines joined by line breaks. With a
      formatting that never yields a line break, the text holds one line break
      fewer than there are lines. */
  function Render(m: Matrix, maxRows: nat, maxCols: nat, fmt: real -> string): (text: string)
    requires |m| > 0
    ensures (forall v :: '\n' !in fmt(v)) ==>
      Occurrences(text, '\n') + 1 == |RenderLines(m, maxRows, maxCols, fmt)|
  {
    var lines := RenderLines(m, maxRows, maxCols, fmt);
    assert (forall v :: '\n' !in fmt(v)) ==> Occurrences(Join(lines, "\n"), '\n') + 1 == |lines| by {
      if forall v :: '\n' !in fmt(v) {
        LinesFree(m, maxRows, maxCols, fmt, '\n');
        LineBreaksOfJoin(lines);
      }
    }
    Join(lines, "\n")
  }

  /** `renderMatrix(m)` with its default caps of 4 rows and 5 columns: at most four
      value lines, followed by "..." exactly when m has more than 4 rows or more
      than 5 columns. */
  function RenderMatrix(m: Matrix, fmt: real -> string): (text: string)
    requires |m| > 0
    ensures (forall v :: '\n' !in fmt(v)) ==>
      Occurrences(text, '\n') + 1 == Min(|m|, 4) + if |m| > 4 || |m[0]| > 5 then 1 else 0
  {
    Render(m, 4, 5, fmt)
  }

  /** A join of parts and separator free of `c` is free of `c`. */
  lemma {:induction false} JoinFree(parts: seq<string>, sep: string, c: char)
    requires c !in sep && forall t :: 0 <= t < |parts| ==> c !in parts[t]
    ensures c !in Join(parts, sep)
  {
    if |parts| > 1 {
      JoinFree(parts[..|parts| - 1], sep, c);
    }
  }

  /** The formatted values hold no `c` when no formatted value does. */
  lemma FormattedFree(xs: seq<real>, fmt: real -> string, c: char)
    requires forall v :: c !in fmt(v)
    ensures forall t :: 0 <= t < |xs| ==> c !in Formatted(xs, fmt)[t]
  {
    forall t | 0 <= t < |xs|
      ensures c !in Formatted(xs, fmt)[t]
    {
      var v := xs[t];
      assert c !in fmt(v);
    }
  }

  /** With a formatting that never yields `c`, no line of the preview holds `c`
      unless the two-space separator or "..." does. */
  lemma LinesFree(m: Matrix, maxRows: nat, maxCols: nat, fmt: real -> string, c: char)
    requires |m| > 0 && c != ' ' && c != '.'
    requires forall v :: c !in fmt(v)
    ensures forall i :: 0 <= i < |RenderLines(m, maxRows, maxCols, fmt)| ==> c !in RenderLines(m, maxRows, maxCols, fmt)[i]
  {
    var lines := RenderLines(m, maxRows, maxCols, fmt);
    forall i | 0 <= i < |lines|
      ensures c !in lines[i]
    {
      if i < Min(|m|, maxRows) {
        var cols := Min(|m[0]|, maxCols);
        var xs := m[i][..Min(cols, |m[i]|)];
        FormattedFree(xs, fmt, c);
        JoinFree(Formatted(xs, fmt), "  ", c);
      }
    }
  }

  /** Lines free of line breaks, joined by line breaks, hold one fewer than there are lines. */
  lemma LineBreaksOfJoin(lines: seq<string>)
    requires |lines| > 0 && forall i :: 0 <= i < |lines| ==> '\n' !in lines[i]
    ensures Occurrences(Join(lines, "\n"), '\n') + 1 == |lines|
  {
    NoOccurrences(lines, '\n');
    JoinOccurrences(lines, "\n", '\n');
    assert Occurrences("\n", '\n') == 1 by {
      assert multiset("\n") == multiset{'\n'};
    }
  }

  /** With a formatting that never yields a space, value line i of a rectangular
      matrix shows min(|m[0]|, maxCols) values: it holds two spaces fewer than twice
      that many. */
  lemma ShownValues(m: Matrix, maxRows: nat, maxCols: nat, fmt: real -> string, i: nat)
    requires |m| > 0 && IsRect(m, |m|, |m[0]|) && i < Min(|m|, maxRows)
    requires Min(|m[0]|, maxCols) > 0
    requires forall v :: ' ' !in fmt(v)
    ensures Occurrences(RenderLines(m, maxRows, maxCols, fmt)[i], ' ') + 2 == 2 * Min(|m[0]|, maxCols)
  {
    var cols := Min(|m[0]|, maxCols);
    assert Min(cols, |m[i]|) == cols;
    LineAt(m, maxRows, maxCols, fmt, i);
    FormattedFree(m[i][..cols], fmt, ' ');
    SpacesOfJoin(Formatted(m[i][..cols], fmt));
  }

  /** Space-free parts joined by two spaces hold two spaces per gap between them. */
  lemma SpacesOfJoin(values: seq<string>)
    requires |values| > 0 && forall t :: 0 <= t < |values| ==> ' ' !in values[t]
    ensures Occurrences(Join(values, "  "), ' ') + 2 == 2 * |values|
  {
    NoOccurrences(values, ' ');
    JoinOccurrences(values, "  ", ' ');
    assert Occurrences("  ", ' ') == 2 by {
      assert multiset("  ") == multiset{' ', ' '};
    }
    OneMore(|values|, 2);
  }

  /** Value line i joins the formatted values of the shown part of row i. */
  lemma LineAt(m: Matrix, maxRows: nat, maxCols: nat, fmt: real -> string, i: nat)
    requires |m| > 0 && i < Min(|m|, maxRows)
    ensures RenderLines(m, maxRows, maxCols, fmt)[i]
         == Join(Formatted(m[i][..Min(Min(|m[0]|, maxCols), |m[i]|)], fmt), "  ")
  {
  }

  // ---------------------------------------------------------------------------
  // Reading a preview line back

  /** The maximal runs of characters other than `c` in `s`, in order: `s.split(c)`
      with the empty pieces dropped. */
  function Fields(s: string, c: char): seq<string> {
    if |s| == 0 then []
    else
      var init, last := Fields(s[..|s| - 1], c), s[|s| - 1];
      if last == c then init
      else if |s| > 1 && s[|s| - 2] != c && |init| > 0 then init[..|init| - 1] + [init[|init| - 1] + [last]]
      else init + [[last]]
  }

  /** Trailing separator characters start no field. */
  lemma {:induction false} FieldsOfSeparators(x: string, cs: string, c: char)
    requires forall t :: 0 <= t < |cs| ==> cs[t] == c
    ensures Fields(x + cs, c) == Fields(x, c)
    decreases |cs|
  {
    if |cs| > 0 {
      var init := cs[..|cs| - 1];
      FieldsOfSeparators(x, init, c);
      assert (x + cs)[..|x + cs| - 1] == x + init;
    } else {
      assert x + cs == x;
    }
  }

  /** A non-empty word free of `c`, written after a separator, is one more field. */
  lemma {:induction false} FieldsOfField(x: string, w: string, c: char)
    requires |x| == 0 || x[|x| - 1] == c
    requires |w| > 0 && c !in w
    ensures Fields(x + w, c) == Fields(x, c) + [w]
    decreases |w|
  {
    var init, ch := w[..|w| - 1], w[|w| - 1];
    assert x + w == (x + init) + [ch];
    if |init| == 0 {
      assert x + init == x && w == [ch];
      FieldsStart(x, ch, c);
    } else {
      FieldsOfField(x, init, c);
      var y, before := x + init, Fields(x, c);
      assert y[|y| - 1] == w[|w| - 2] != c;
      assert Fields(y, c) == before + [init];
      FieldsExtend(y, ch, c);
      assert (before + [init])[..|before|] == before;
      assert init + [ch] == w;
    }
  }

  /** A character other than `c` after a separator, or at the start, starts a field. */
  lemma FieldsStart(x: string, ch: char, c: char)
    requires (|x| == 0 || x[|x| - 1] == c) && ch != c
    ensures Fields(x + [ch], c) == Fields(x, c) + [[ch]]
  {
    var s := x + [ch];
    assert s[..|s| - 1] == x;
  }

  /** A character other than `c` after another one extends the last field. */
  lemma FieldsExtend(y: string, ch: char, c: char)
    requires |y| > 0 && y[|y| - 1] != c && |Fields(y, c)| > 0 && ch != c
    ensures Fields(y + [ch], c)
         == Fields(y, c)[..|Fields(y, c)| - 1] + [Fields(y, c)[|Fields(y, c)| - 1] + [ch]]
  {
    var s := y + [ch];
    assert s[..|s| - 1] == y;
  }

  /** Splitting a join of non-empty, `c`-free parts at a separator made of `c`s gives
      back the parts, in order. */
  lemma {:induction false} JoinFields(parts: seq<string>, sep: string, c: char)
    requires |sep| > 0 && forall t :: 0 <= t < |sep| ==> sep[t] == c
    requires forall t :: 0 <= t < |parts| ==> |parts[t]| > 0 && c !in parts[t]
    ensures Fields(Join(parts, sep), c) == parts
  {
    if |parts| == 1 {
      FieldsOfField([], parts[0], c);
      assert [] + parts[0] == parts[0];
    } else if |parts| > 1 {
      var init := parts[..|parts| - 1];
      JoinFields(init, sep, c);
      FieldsOfField(Join(init, sep) + sep, parts[|parts| - 1], c);
      FieldsOfSeparators(Join(init, sep), sep, c);
      assert init + [parts[|parts| - 1]] == parts;
    }
  }

  /** A join whose last part is not empty is not empty. */
  lemma JoinNonEmpty(parts: seq<string>, sep: string)
    requires |parts| > 0 && |parts[|parts| - 1]| > 0
    ensures |Join(parts, sep)| > 0
  {
  }

  /** Every line of the preview of a rectangle with at least one shown column holds
      some text. */
  lemma LinesNonEmpty(m: Matrix, maxRows: nat, maxCols: nat, fmt: real -> string)
    requires |m| > 0 && IsRect(m, |m|, |m[0]|) && |m[0]| > 0 && maxCols > 0
    requires forall v :: fmt(v) != ""
    ensures forall i :: 0 <= i < |RenderLines(m, maxRows, maxCols, fmt)| ==> |RenderLines(m, maxRows, maxCols, fmt)[i]| > 0
  {
    var lines := RenderLines(m, maxRows, maxCols, fmt);
    forall i | 0 <= i < |lines|
      ensures |lines[i]| > 0
    {
      if i < Min(|m|, maxRows) {
        var cols := Min(|m[0]|, maxCols);
        assert Min(cols, |m[i]|) == cols;
        var values := Formatted(m[i][..cols], fmt);
        LineAt(m, maxRows, maxCols, fmt, i);
        var v := m[i][cols - 1];
        assert values[cols - 1] == fmt(v);
        JoinNonEmpty(values, "  ");
      }
    }
  }

  /** With a formatting that always yields some text and never a line break, the
      text of `renderMatrix(m, maxRows, maxCols)` split at its line breaks is the
      list of preview lines, in order. */
  lemma RenderSplitsIntoLines(m: Matrix, maxRows: nat, maxCols: nat, fmt: real -> string)
    requires |m| > 0 && IsRect(m, |m|, |m[0]|) && |m[0]| > 0 && maxCols > 0
    requires forall v :: fmt(v) != "" && '\n' !in fmt(v)
    ensures Fields(Render(m, maxRows, maxCols, fmt), '\n') == RenderLines(m, maxRows, maxCols, fmt)
  {
    var lines := RenderLines(m, maxRows, maxCols, fmt);
    LinesFree(m, maxRows, maxCols, fmt, '\n');
    LinesNonEmpty(m, maxRows, maxCols, fmt);
    JoinFields(lines, "\n", '\n');
  }

  /** With the default caps, the text splits at its line breaks into min(|m|, 4)
      value lines, the first min(|m[0]|, 5) values of each row of m joined by two
      spaces, followed by "..." exactly when m has more than 4 rows or 5 columns. */
  lemma RenderMatrixSplitsIntoLines(m: Matrix, fmt: real -> string)
    requires |m| > 0 && IsRect(m, |m|, |m[0]|) && |m[0]| > 0
    requires forall v :: fmt(v) != "" && '\n' !in fmt(v)
    ensures Fields(RenderMatrix(m, fmt), '\n') == RenderLines(m, 4, 5, fmt)
    ensures |RenderLines(m, 4, 5, fmt)| == Min(|m|, 4) + if |m| > 4 || |m[0]| > 5 then 1 else 0
    ensures (|m| > 4 || |m[0]| > 5) ==> RenderLines(m, 4, 5, fmt)[Min(|m|, 4)] == "..."
    ensures forall i :: 0 <= i < Min(|m|, 4) ==>
      RenderLines(m, 4, 5, fmt)[i] == Join(Formatted(m[i][..Min(|m[0]|, 5)], fmt), "  ")
  {
    RenderSplitsIntoLines(m, 4, 5, fmt);
    forall i | 0 <= i < Min(|m|, 4)
      ensures RenderLines(m, 4, 5, fmt)[i] == Join(Formatted(m[i][..Min(|m[0]|, 5)], fmt), "  ")
    {
      LineAt(m, 4, 5, fmt, i);
      assert Min(Min(|m[0]|, 5), |m[i]|) == Min(|m[0]|, 5);
    }
  }

  /** With a formatting that always yields some text and never a space, value line i
      reads back, split at its spaces, as the formatted values of the first
      min(|m[0]|, maxCols) entries of row i, in order. */
  lemma ShownValuesInOrder(m: Matrix, maxRows: nat, maxCols: nat, fmt: real -> string, i: nat)
    requires |m| > 0 && i < Min(|m|, maxRows)
    requires forall v :: fmt(v) != "" && ' ' !in fmt(v)
    ensures Fields(RenderLines(m, maxRows, maxCols, fmt)[i], ' ')
         == Formatted(m[i][..Min(Min(|m[0]|, maxCols), |m[i]|)], fmt)
  {
    var xs := m[i][..Min(Min(|m[0]|, maxCols), |m[i]|)];
    var values := Formatted(xs, fmt);
    LineAt(m, maxRows, maxCols, fmt, i);
    forall t | 0 <= t < |values|
      ensures |values[t]| > 0 && ' ' !in values[t]
    {
      var v := xs[t];
      assert values[t] == fmt(v);
    }
    JoinFields(values, "  ", ' ');
  }
}
