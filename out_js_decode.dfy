/** A reader for the text r.out.js prints. It cuts the text at the brackets
    and commas and gives back the pieces as strings; it does not evaluate the
    numbers. Proving that the reader gives back the columns shows that the
    printed text is unambiguous: it determines every column and every cell's
    three number texts. */
module OutJsDecode {
  import opened Results
  import opened Text
  import opened OutJs

  /** The number of leading characters of `s` that differ from `c`. */
  function Span(s: string, c: char): (n: nat)
    ensures n <= |s|
    ensures forall k :: 0 <= k < n ==> s[k] != c
    ensures n < |s| ==> s[n] == c
  {
    if |s| == 0 || s[0] == c then 0 else 1 + Span(s[1..], c)
  }

  lemma {:induction false} SpanUpTo(p: string, t: string, c: char)
    requires c !in p && t != [] && t[0] == c
    ensures Span(p + t, c) == |p|
  {
    if p != [] {
      assert (p + t)[1..] == p[1..] + t;
      SpanUpTo(p[1..], t, c);
    } else {
      assert p + t == t;
    }
  }

  /** One vector `[...]`: from an opening bracket to the first closing one. */
  function ParseVector(s: string): (r: Option<(string, string)>)
    ensures r.Some? ==> |r.value.1| < |s|
  {
    if |s| == 0 || s[0] != '[' then None
    else
      var n := Span(s[1..], ']');
      if n + 1 < |s| then Some((s[..n + 2], s[n + 2..])) else None
  }

  /** One or more vectors separated by commas. */
  function ParseVectors(s: string): (r: Option<(seq<string>, string)>)
    ensures r.Some? ==> |r.value.1| < |s|
    decreases |s|
  {
    match ParseVector(s)
    case None => None
    case Some((v, rest)) =>
      if |rest| > 0 && rest[0] == ',' then
        match ParseVectors(rest[1..])
        case None => None
        case Some((vs, rest')) => Some(([v] + vs, rest'))
      else Some(([v], rest))
  }

  /** One column `[v,...,v]` and its line break; `[]` is an empty column. */
  function ParseColumn(s: string): (r: Option<(seq<string>, string)>)
    ensures r.Some? ==> |r.value.1| < |s|
  {
    if |s| == 0 || s[0] != '[' then None
    else
      var body := s[1..];
      var items: Option<(seq<string>, string)> :=
        if |body| > 0 && body[0] == ']' then Some(([], body)) else ParseVectors(body);
      match items
      case None => None
      case Some((vs, rest)) =>
        if |rest| >= 2 && rest[..2] == "]\n" then Some((vs, rest[2..])) else None
  }

  /** One or more columns separated by commas. */
  function ParseColumns(s: string): (r: Option<(seq<seq<string>>, string)>)
    ensures r.Some? ==> |r.value.1| < |s|
    decreases |s|
  {
    match ParseColumn(s)
    case None => None
    case Some((column, rest)) =>
      if |rest| > 0 && rest[0] == ',' then
        match ParseColumns(rest[1..])
        case None => None
        case Some((columns, rest')) => Some(([column] + columns, rest'))
      else Some(([column], rest))
  }

  const Header: string := "columns = ["

  /** The columns of a printed text, each as its list of vector texts. */
  function Decode(text: string): Option<seq<seq<string>>>
  {
    if |text| < |Header| || text[..|Header|] != Header then None
    else
      var body := text[|Header|..];
      var items: Option<(seq<seq<string>>, string)> :=
        if |body| > 0 && body[0] == ']' then Some(([], body)) else ParseColumns(body);
      match items
      case None => None
      case Some((columns, rest)) => if rest == "]" then Some(columns) else None
  }

  /** The three numbers of one vector text `[dx,dy,m]`. */
  function DecodeVector(v: string): Option<(string, string, string)>
  {
    if |v| < 2 || v[0] != '[' || v[|v| - 1] != ']' then None
    else
      var pieces := Split(v[1..|v| - 1], ',');
      if |pieces| == 3 then Some((pieces[0], pieces[1], pieces[2])) else None
  }

  /** A vector text: brackets around a body without a closing bracket. */
  ghost predicate Bracketed(v: string)
  {
    |v| >= 2 && v[0] == '[' && v[|v| - 1] == ']' && ']' !in v[1..|v| - 1]
  }

  ghost predicate AllBracketed(vs: seq<string>)
  {
    forall k :: 0 <= k < |vs| ==> Bracketed(vs[k])
  }

  lemma ParseVectorRoundTrip(v: string, rest: string)
    requires Bracketed(v)
    ensures ParseVector(v + rest) == Some((v, rest))
  {
    var s := v + rest;
    assert s[1..] == v[1..|v| - 1] + ("]" + rest);
    SpanUpTo(v[1..|v| - 1], "]" + rest, ']');
    assert s[..|v|] == v && s[|v|..] == rest;
  }

  lemma {:induction false} ParseVectorsRoundTrip(vs: seq<string>, rest: string)
    requires vs != [] && AllBracketed(vs)
    requires rest == [] || rest[0] != ','
    ensures ParseVectors(Join(",", vs) + rest) == Some((vs, rest))
    decreases |vs|
  {
    if |vs| == 1 {
      ParseVectorRoundTrip(vs[0], rest);
      assert Join(",", vs) == vs[0] && [vs[0]] == vs;
    } else {
      var tail := Join(",", vs[1..]) + rest;
      assert Join(",", vs) + rest == vs[0] + ("," + tail);
      ParseVectorRoundTrip(vs[0], "," + tail);
      assert ("," + tail)[1..] == tail;
      ParseVectorsRoundTrip(vs[1..], rest);
      assert [vs[0]] + vs[1..] == vs;
    }
  }

  lemma ParseColumnRoundTrip(column: seq<string>, rest: string)
    requires AllBracketed(column)
    ensures ParseColumn(ColumnText(column) + rest) == Some((column, rest))
  {
    var s := ColumnText(column) + rest;
    var body := Join(",", column) + ("]\n" + rest);
    assert s[1..] == body;
    if column == [] {
      assert body == "]\n" + rest;
    } else {
      ParseVectorsRoundTrip(column, "]\n" + rest);
      JoinStart(",", column);
      assert body[0] == column[0][0];
      assert ("]\n" + rest)[..2] == "]\n" && ("]\n" + rest)[2..] == rest;
    }
  }

  /** The rendered texts of a list of columns. */
  function ColumnLines(columns: seq<seq<string>>): seq<string>
  {
    seq(|columns|, i requires 0 <= i < |columns| => ColumnText(columns[i]))
  }

  lemma {:induction false} ParseColumnsRoundTrip(columns: seq<seq<string>>, rest: string)
    requires columns != []
    requires forall i :: 0 <= i < |columns| ==> AllBracketed(columns[i])
    requires rest == [] || rest[0] != ','
    ensures ParseColumns(Join(",", ColumnLines(columns)) + rest) == Some((columns, rest))
    decreases |columns|
  {
    var lines := ColumnLines(columns);
    var s := Join(",", lines) + rest;
    if |columns| == 1 {
      assert s == ColumnText(columns[0]) + rest;
      ParseColumnRoundTrip(columns[0], rest);
      assert [columns[0]] == columns;
    } else {
      assert lines[1..] == ColumnLines(columns[1..]);
      var tail := Join(",", lines[1..]) + rest;
      assert s == ColumnText(columns[0]) + ("," + tail);
      ParseColumnRoundTrip(columns[0], "," + tail);
      assert ParseColumn(s) == Some((columns[0], "," + tail));
      assert ("," + tail)[1..] == tail;
      ParseColumnsRoundTrip(columns[1..], rest);
      assert ParseColumns(tail) == Some((columns[1..], rest));
      assert [columns[0]] + columns[1..] == columns;
    }
  }

  /** Reading the printed text gives back the columns it was printed from,
      provided every vector text is bracketed. */
  lemma DecodeDocument(columns: seq<seq<string>>)
    requires forall i :: 0 <= i < |columns| ==> AllBracketed(columns[i])
    ensures Decode(Document(ColumnLines(columns))) == Some(columns)
  {
    var lines := ColumnLines(columns);
    var joined := Join(",", lines);
    var body := joined + "]";
    var text := Document(lines);
    assert text == Header + body;
    assert text[..|Header|] == Header && text[|Header|..] == body;
    if columns != [] {
      ParseColumnsRoundTrip(columns, "]");
      assert lines[0] == ColumnText(columns[0]);
      JoinStart(",", lines);
      assert body[0] == '[';
    }
  }

  /** Number texts as Python's `str()` prints a float: no comma and no
      closing bracket. */
  ghost predicate PlainNumbers<D(!new), S(!new)>(f: Formatter<D, S>)
  {
    (forall d, s :: ',' !in f.dx(d, s) && ']' !in f.dx(d, s)) &&
    (forall d, s :: ',' !in f.dy(d, s) && ']' !in f.dy(d, s)) &&
    (forall s :: ',' !in f.m(s) && ']' !in f.m(s))
  }

  /** Each vector text is bracketed, and reading it gives back its three numbers. */
  lemma DecodeCell<D(!new), S(!new)>(f: Formatter<D, S>, d: D, s: S)
    requires PlainNumbers(f)
    ensures Bracketed(CellText(f, d, s))
    ensures DecodeVector(CellText(f, d, s)) == Some((f.dx(d, s), f.dy(d, s), f.m(s)))
  {
    var parts := [f.dx(d, s), f.dy(d, s), f.m(s)];
    var v := CellText(f, d, s);
    var inner := Join(",", parts);
    assert v == "[" + inner + "]";
    assert v[1..|v| - 1] == inner;
    assert parts[1..][1..] == [f.m(s)];
    assert Join(",", parts[1..]) == f.dy(d, s) + "," + f.m(s);
    assert inner == f.dx(d, s) + "," + Join(",", parts[1..]);
    assert ']' !in inner;
    SplitJoin(parts, ',');
  }

  /** Vector `k` of column `i` is bracketed and gives back the three numbers
      of cell `i` of row `k`. */
  lemma GridVectorDecodes<D(!new), S(!new)>(
    f: Formatter<D, S>, direction: seq<seq<D>>, speed: seq<seq<S>>, i: nat, k: nat)
    requires PlainNumbers(f)
    requires Exportable(direction, speed)
    requires i < |direction[0]| && k < |direction|
    ensures k < |speed| && i < |direction[k]| && i < |speed[k]|
    ensures Bracketed(GridColumns(f, direction, speed)[i][k])
    ensures DecodeVector(GridColumns(f, direction, speed)[i][k]) ==
      Some((f.dx(direction[k][i], speed[k][i]), f.dy(direction[k][i], speed[k][i]), f.m(speed[k][i])))
  {
    assert RowFault(direction, speed, k) == None;
    assert |direction[0]| <= |direction[k]|;
    DecodeCell(f, direction[k][i], speed[k][i]);
  }

  /** The round trip of the whole export: on grids the script exports, reading
      the printed text gives column `i` as the vectors of cell `i` of every
      row, in row order; each vector gives back its cell's three numbers
      (`GridVectorDecodes`). */
  lemma ExportRoundTrip<D(!new), S(!new)>(f: Formatter<D, S>, direction: seq<seq<D>>, speed: seq<seq<S>>)
    requires PlainNumbers(f)
    requires Exportable(direction, speed)
    ensures ExportText(f, direction, speed).Ok?
    ensures Decode(ExportText(f, direction, speed).value) == Some(GridColumns(f, direction, speed))
  {
    ExportMeaning(f, direction, speed);
    var columns := GridColumns(f, direction, speed);
    forall i, k | 0 <= i < |columns| && 0 <= k < |columns[i]|
      ensures Bracketed(columns[i][k])
    {
      GridVectorDecodes(f, direction, speed, i, k);
    }
    assert ColumnLines(columns) == seq(|columns|, i requires 0 <= i < |columns| => ColumnText(columns[i]));
    DecodeDocument(columns);
  }
}
