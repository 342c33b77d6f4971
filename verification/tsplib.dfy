/** Text handling of TSPLIB 95 instance and tour files: the helpers nested in
    `read_tsp_file` (`src/mallows/tsp_utils.py`). A file is its list of
    lines; opening and reading it is left out. A TSPLIB file has a
    specification part of `KEY : value` lines followed by data sections
    introduced by a keyword line such as `EDGE_WEIGHT_SECTION` or
    `TOUR_SECTION` (sections 1.1 and 1.2 of Reinelt's TSPLIB 95). */
module Tsplib {
  import opened Options

  /** `Ok` carries the result; `Fail` stands for an exception the source
      raises (`ValueError`, `IndexError`, `TypeError`, `OverflowError` or an
      unbound local). */
  datatype Outcome<T> = Ok(value: T) | Fail

  // ---------------------------------------------------------------------
  // Python string primitives

  /** The characters Python's `str.isspace` accepts, on which `str.split()`
      breaks. */
  predicate IsSpace(c: char) {
    || c == ' ' || ('\t' <= c <= '\r') || ('\U{1c}' <= c <= '\U{1f}')
    || c == '\U{85}' || c == '\U{a0}' || c == '\U{1680}'
    || ('\U{2000}' <= c <= '\U{200a}') || c == '\U{2028}' || c == '\U{2029}'
    || c == '\U{202f}' || c == '\U{205f}' || c == '\U{3000}'
  }

  /** A word of `str.split()`: non-empty, without whitespace. */
  predicate IsToken(t: string) {
    |t| > 0 && forall i :: 0 <= i < |t| ==> !IsSpace(t[i])
  }

  /** `line.split()`: the maximal runs of non-whitespace characters, in
      order. `cur` is the run read so far. */
  function SplitFrom(s: string, cur: string): (ts: seq<string>)
    requires forall i :: 0 <= i < |cur| ==> !IsSpace(cur[i])
    ensures forall k :: 0 <= k < |ts| ==> IsToken(ts[k])
  {
    if |s| == 0 then (if cur == "" then [] else [cur])
    else if IsSpace(s[0]) then
      (if cur == "" then SplitFrom(s[1..], "") else [cur] + SplitFrom(s[1..], ""))
    else SplitFrom(s[1..], cur + [s[0]])
  }

  function Split(s: string): (ts: seq<string>)
    ensures forall k :: 0 <= k < |ts| ==> IsToken(ts[k])
  {
    SplitFrom(s, "")
  }

  /** `" ".join(ts)`. */
  function Join(ts: seq<string>): string {
    if |ts| == 0 then ""
    else if |ts| == 1 then ts[0]
    else ts[0] + " " + Join(ts[1..])
  }

  /** A run without whitespace extends the current word. */
  lemma {:induction false} SplitFromWord(t: string, rest: string, cur: string)
    requires forall i :: 0 <= i < |cur| ==> !IsSpace(cur[i])
    requires forall i :: 0 <= i < |t| ==> !IsSpace(t[i])
    ensures SplitFrom(t + rest, cur) == SplitFrom(rest, cur + t)
    decreases |t|
  {
    if |t| == 0 {
      assert t + rest == rest;
      assert cur + t == cur;
    } else {
      assert (t + rest)[1..] == t[1..] + rest;
      assert cur + [t[0]] + t[1..] == cur + t;
      SplitFromWord(t[1..], rest, cur + [t[0]]);
    }
  }

  /** Splitting undoes joining with single spaces. */
  lemma {:induction false} SplitJoin(ts: seq<string>)
    requires forall k :: 0 <= k < |ts| ==> IsToken(ts[k])
    ensures Split(Join(ts)) == ts
  {
    if |ts| == 1 {
      SplitFromWord(ts[0], "", "");
      assert ts[0] + "" == ts[0];
      assert "" + ts[0] == ts[0];
    } else if |ts| > 1 {
      var rest := " " + Join(ts[1..]);
      assert Join(ts) == ts[0] + rest;
      SplitFromWord(ts[0], rest, "");
      assert "" + ts[0] == ts[0];
      assert rest[1..] == Join(ts[1..]);
      SplitJoin(ts[1..]);
      assert ts == [ts[0]] + ts[1..];
    }
  }

  /** A line holding a non-space character has at least one word. */
  lemma {:induction false} SplitFromNonEmpty(s: string, cur: string, k: nat)
    requires forall i :: 0 <= i < |cur| ==> !IsSpace(cur[i])
    requires cur != "" || (k < |s| && !IsSpace(s[k]))
    ensures |SplitFrom(s, cur)| > 0
    decreases |s|
  {
    if |s| > 0 {
      if IsSpace(s[0]) {
        if cur == "" {
          SplitFromNonEmpty(s[1..], "", k - 1);
        }
      } else {
        SplitFromNonEmpty(s[1..], cur + [s[0]], 0);
      }
    }
  }

  /** `line.startswith(key)`. */
  predicate StartsWith(line: string, key: string) {
    |key| <= |line| && line[..|key|] == key
  }

  /** `str.endswith(suffix)`. */
  predicate EndsWith(s: string, suffix: string) {
    |suffix| <= |s| && s[|s| - |suffix|..] == suffix
  }

  /** `int(token)`: an optional sign, then decimal digits with single
      underscores allowed between digits. */
  function ParseInt(tok: string): (v: Option<int>)
    ensures v.Some? ==> |tok| > 0
  {
    if |tok| > 0 && tok[0] == '-' then
      (if ValidDigits(tok[1..]) then Some(-(DigitsValue(tok[1..]) as int)) else None)
    else if |tok| > 0 && tok[0] == '+' then
      (if ValidDigits(tok[1..]) then Some(DigitsValue(tok[1..])) else None)
    else if ValidDigits(tok) then Some(DigitsValue(tok))
    else None
  }

  predicate IsDigit(c: char) {
    '0' <= c <= '9'
  }

  /** Digits, with an underscore only between two digits. */
  predicate ValidDigits(s: string) {
    && |s| > 0
    && IsDigit(s[0]) && IsDigit(s[|s| - 1])
    && (forall i :: 0 <= i < |s| ==> IsDigit(s[i]) || s[i] == '_')
    && (forall i :: 0 <= i < |s| - 1 ==> IsDigit(s[i]) || IsDigit(s[i + 1]))
  }

  /** The value of the digits, underscores skipped. */
  function DigitsValue(s: string): nat {
    if |s| == 0 then 0
    else if IsDigit(s[|s| - 1]) then 10 * DigitsValue(s[..|s| - 1]) + (s[|s| - 1] as int - '0' as int)
    else DigitsValue(s[..|s| - 1])
  }

  /** `str(v)` for a natural number. */
  function ShowNat(v: nat): (s: string)
    ensures |s| > 0
    ensures forall i :: 0 <= i < |s| ==> IsDigit(s[i])
  {
    var d := [('0' as int + v % 10) as char];
    if v < 10 then d else ShowNat(v / 10) + d
  }

  /** `str(v)`. */
  function ShowInt(v: int): string {
    if v < 0 then "-" + ShowNat(-v) else ShowNat(v)
  }

  lemma {:induction false} DigitsValueShowNat(v: nat)
    ensures DigitsValue(ShowNat(v)) == v
  {
    var s := ShowNat(v);
    if v >= 10 {
      DigitsValueShowNat(v / 10);
      assert s[..|s| - 1] == ShowNat(v / 10);
    }
  }

  /** `int(str(v)) == v`. */
  lemma ParseShowInt(v: int)
    ensures ParseInt(ShowInt(v)) == Some(v)
  {
    var n: nat := if v < 0 then -v else v;
    DigitsValueShowNat(n);
    if v < 0 {
      assert ShowInt(v)[1..] == ShowNat(n);
    }
  }

  /** A lone sign, an empty token or a letter is no integer. */
  lemma ParseIntRejects()
    ensures ParseInt("") == None
    ensures ParseInt("-") == None
    ensures ParseInt("+") == None
    ensures ParseInt("DIMENSION:29") == None
    ensures ParseInt("1__0") == None
    ensures ParseInt("1_0") == Some(10)
  {
    assert "-"[1..] == "";
    assert "+"[1..] == "";
    assert "1__0"[1] == '_' && "1__0"[2] == '_';
    assert "1_0"[..2] == "1_";
    assert "1_"[..1] == "1";
  }

  // ---------------------------------------------------------------------
  // Header scanning

  /** Index of the first line starting with `key`: the section locators
      `get_edge_weight_section_loc` and `get_solution_loc`. `None` when no
      line matches, where the loop falls through. */
  function FirstMatch(lines: seq<string>, key: string): (loc: Option<nat>)
    ensures loc.Some? ==> loc.value < |lines| && StartsWith(lines[loc.value], key)
    ensures loc.Some? ==> forall j :: 0 <= j < loc.value ==> !StartsWith(lines[j], key)
    ensures loc.None? <==> forall j :: 0 <= j < |lines| ==> !StartsWith(lines[j], key)
  {
    if |lines| == 0 then None
    else if StartsWith(lines[0], key) then Some(0)
    else
      match FirstMatch(lines[1..], key)
      case None => None
      case Some(i) => Some(i + 1)
  }

  /** A header key: it begins with a non-space character, so a line that
      starts with it has a word to take. */
  predicate IsKey(key: string) {
    |key| > 0 && !IsSpace(key[0])
  }

  /** `line.split()[-1]` of the first line starting with `key`, the scanner
      behind `get_edge_weight_type` and `get_edge_weight_format`. */
  function HeaderValue(lines: seq<string>, key: string): (v: Option<string>)
    requires IsKey(key)
    ensures v.None? <==> FirstMatch(lines, key).None?
    ensures v.Some? ==> IsToken(v.value)
  {
    match FirstMatch(lines, key)
    case None => None
    case Some(i) =>
      var ws := Split(lines[i]);
      SplitFromNonEmpty(lines[i], "", 0);
      Some(ws[|ws| - 1])
  }

  /** The value is the last word of the first matching line. */
  lemma HeaderValueOfLine(lines: seq<string>, key: string, i: nat, ws: seq<string>)
    requires IsKey(key) && i < |lines|
    requires StartsWith(lines[i], key)
    requires forall j :: 0 <= j < i ==> !StartsWith(lines[j], key)
    requires |ws| > 0 && Split(lines[i]) == ws
    ensures HeaderValue(lines, key) == Some(ws[|ws| - 1])
  {
    FirstMatchUnique(lines, key, i);
  }

  lemma FirstMatchUnique(lines: seq<string>, key: string, i: nat)
    requires i < |lines| && StartsWith(lines[i], key)
    requires forall j :: 0 <= j < i ==> !StartsWith(lines[j], key)
    ensures FirstMatch(lines, key) == Some(i)
  {
  }

  /** `get_dimension`: `Ok(None)` when no line starts with `DIMENSION`, `Fail`
      when its last word is no integer (as in `DIMENSION:29`). */
  function Dimension(lines: seq<string>): (d: Outcome<Option<int>>)
    ensures d == Ok(None) <==> HeaderValue(lines, "DIMENSION").None?
    ensures d.Ok? && d.value.Some? ==>
              HeaderValue(lines, "DIMENSION").Some?
              && ParseInt(HeaderValue(lines, "DIMENSION").value) == Some(d.value.value)
  {
    match HeaderValue(lines, "DIMENSION")
    case None => Ok(None)
    case Some(w) =>
      match ParseInt(w)
      case None => Fail
      case Some(v) => Ok(Some(v))
  }

  /** `get_edge_weight_type`: missing exactly when no line starts with
      `EDGE_WEIGHT_TYPE`, otherwise a whitespace-free token (the last word
      of the first such line). */
  function EdgeWeightType(lines: seq<string>): (v: Option<string>)
    ensures v.None? <==> FirstMatch(lines, "EDGE_WEIGHT_TYPE").None?
    ensures v.Some? ==> IsToken(v.value)
  {
    HeaderValue(lines, "EDGE_WEIGHT_TYPE")
  }

  /** `get_edge_weight_format`: missing exactly when no line starts with
      `EDGE_WEIGHT_FORMAT`, otherwise a whitespace-free token (the last
      word of the first such line). */
  function EdgeWeightFormat(lines: seq<string>): (v: Option<string>)
    ensures v.None? <==> FirstMatch(lines, "EDGE_WEIGHT_FORMAT").None?
    ensures v.Some? ==> IsToken(v.value)
  {
    HeaderValue(lines, "EDGE_WEIGHT_FORMAT")
  }

  /** A header written as `DIMENSION : <v>` yields `v`. */
  lemma DimensionRoundTrip(before: seq<string>, v: int, after: seq<string>)
    requires forall j :: 0 <= j < |before| ==> !StartsWith(before[j], "DIMENSION")
    ensures Dimension(before + ["DIMENSION : " + ShowInt(v)] + after) == Ok(Some(v))
  {
    var lines := before + ["DIMENSION : " + ShowInt(v)] + after;
    var line := "DIMENSION : " + ShowInt(v);
    var ws := ["DIMENSION", ":", ShowInt(v)];
    assert line[..9] == "DIMENSION";
    assert lines[|before|] == line;
    assert forall j :: 0 <= j < |before| ==> lines[j] == before[j];
    ShowIntIsToken(v);
    assert IsToken("DIMENSION") && IsToken(":");
    assert Join(ws) == line by {
      assert Join(ws[2..]) == ShowInt(v);
      assert Join(ws[1..]) == ":" + " " + ShowInt(v);
    }
    SplitJoin(ws);
    HeaderValueOfLine(lines, "DIMENSION", |before|, ws);
    ParseShowInt(v);
  }

  lemma ShowIntIsToken(v: int)
    ensures IsToken(ShowInt(v))
  {
    var n: nat := if v < 0 then -v else v;
    var s := ShowInt(v);
    forall i | 0 <= i < |s|
      ensures !IsSpace(s[i])
    {
      if v < 0 && i > 0 {
        assert s[i] == ShowNat(n)[i - 1];
      }
    }
  }

  // ---------------------------------------------------------------------
  // Explicit edge weights

  /** One data line as integers: `[int(x) for x in line.split() if x != ""]`,
      `None` when a word is no integer. */
  function ParseRow(line: string): (row: Option<seq<int>>)
    ensures row.Some? ==> |row.value| == |Split(line)|
    ensures row.Some? ==> forall t :: 0 <= t < |row.value| ==> ParseInt(Split(line)[t]) == Some(row.value[t])
  {
    ParseWords(Split(line))
  }

  function ParseWords(ws: seq<string>): (row: Option<seq<int>>)
    ensures row.Some? ==> |row.value| == |ws|
    ensures row.Some? ==> forall t :: 0 <= t < |ws| ==> ParseInt(ws[t]) == Some(row.value[t])
    ensures row.None? <==> exists t :: 0 <= t < |ws| && ParseInt(ws[t]).None?
  {
    AllSome(seq(|ws|, t requires 0 <= t < |ws| => ParseInt(ws[t])))
  }

  /** Every line parsed, or `None` when some word is no integer. */
  function ParseRows(lines: seq<string>): (rows: Option<seq<seq<int>>>)
    ensures rows.Some? ==> |rows.value| == |lines|
    ensures rows.Some? ==> forall i :: 0 <= i < |lines| ==> ParseRow(lines[i]) == Some(rows.value[i])
    ensures rows.None? <==> exists i :: 0 <= i < |lines| && ParseRow(lines[i]).None?
  {
    AllSome(seq(|lines|, i requires 0 <= i < |lines| => ParseRow(lines[i])))
  }

  /** The values of a list of partial results, or `None` as soon as one of
      them is missing: the first exception of a comprehension aborts it. */
  function AllSome<T>(xs: seq<Option<T>>): (r: Option<seq<T>>)
    ensures r.Some? ==> |r.value| == |xs| && forall i :: 0 <= i < |xs| ==> xs[i] == Some(r.value[i])
    ensures r.None? <==> exists i :: 0 <= i < |xs| && xs[i].None?
  {
    if |xs| == 0 then Some([])
    else
      match xs[0]
      case None => None
      case Some(v) =>
        match AllSome(xs[1..])
        case None =>
          ghost var i :| 0 <= i < |xs| - 1 && xs[1..][i].None?;
          assert xs[i + 1].None?;
          None
        case Some(rest) =>
          assert forall i :: 1 <= i < |xs| ==> xs[i] == xs[1..][i - 1];
          Some([v] + rest)
  }

  /** numpy's broadcasting of a parsed line onto `width` matrix cells: the
      line must have exactly `width` numbers, or a single one that fills
      every cell. */
  predicate Fits(row: seq<int>, width: nat) {
    |row| == width || |row| == 1
  }

  /** The value numpy stores in cell `t` of the target slice. */
  function Cell(row: seq<int>, width: nat, t: nat): int
    requires Fits(row, width) && t < width
  {
    if |row| == width then row[t] else row[0]
  }

  /** An `n x n` matrix. */
  predicate IsSquare(m: seq<seq<int>>, n: nat) {
    |m| == n && forall i :: 0 <= i < n ==> |m[i]| == n
  }

  /** The upper-row assignments succeed: one line per matrix row (an
      `IndexError` past row `n - 1`), and each line broadcastable onto the
      `n - 1 - i` cells right of the diagonal. */
  predicate UpperRowsFit(n: nat, rows: seq<seq<int>>) {
    |rows| <= n && forall i :: 0 <= i < |rows| ==> Fits(rows[i], n - 1 - i)
  }

  /** Cell `(i, j)` once lines `0..|rows|-1` have been written: line `i`
      fills row `i` right of the diagonal and, mirrored, column `i` below
      it; everything else keeps the zero of `np.zeros`. */
  function UpperRowEntry(n: nat, rows: seq<seq<int>>, i: nat, j: nat): int
    requires UpperRowsFit(n, rows) && i < n && j < n
  {
    if i < j && i < |rows| then Cell(rows[i], n - 1 - i, j - i - 1)
    else if j < i && j < |rows| then Cell(rows[j], n - 1 - j, i - j - 1)
    else 0
  }

  function UpperRowMatrix(n: nat, rows: seq<seq<int>>): (m: seq<seq<int>>)
    requires UpperRowsFit(n, rows)
    ensures IsSquare(m, n)
  {
    seq(n, i requires 0 <= i < n => seq(n, j requires 0 <= j < n => UpperRowEntry(n, rows, i, j)))
  }

  /** The loop of `get_dist_matrix_from_upper_row` step by step: start from
      zeros, then for each line assign `dist_matrix[index, index + 1:]` and
      `dist_matrix[index + 1:, index]`. It ends in the closed form. */
  method UpperRowLoop(n: nat, rows: seq<seq<int>>) returns (m: seq<seq<int>>)
    requires UpperRowsFit(n, rows)
    ensures m == UpperRowMatrix(n, rows)
  {
    m := seq(n, _ => seq(n, _ => 0));
    for index := 0 to |rows|
      invariant IsSquare(m, n)
      invariant forall i, j :: 0 <= i < n && 0 <= j < n ==> m[i][j] == UpperRowEntry(n, rows[..index], i, j)
    {
      var line := rows[index];
      var width := n - 1 - index;
      m := seq(n, i requires 0 <= i < n => seq(n, j requires 0 <= j < n =>
             if i == index && index < j then Cell(line, width, j - index - 1)
             else if j == index && index < i then Cell(line, width, i - index - 1)
             else m[i][j]));
      assert rows[..index + 1][index] == line;
      assert forall k :: 0 <= k < index ==> rows[..index + 1][k] == rows[..index][k];
    }
    assert rows[..|rows|] == rows;
    var full := UpperRowMatrix(n, rows);
    forall i | 0 <= i < n
      ensures m[i] == full[i]
    {
      assert forall j :: 0 <= j < n ==> m[i][j] == full[i][j];
    }
  }

  /** `get_dist_matrix_from_upper_row(lines)` for dimension `n`: a
      symmetric `n x n` matrix with a zero diagonal, line `i`'s numbers
      right of the diagonal in row `i` (a single number broadcast along
      it), zeros where no line was given. `np.zeros` rejects a negative
      dimension; a word that is no integer and a line numpy cannot
      broadcast raise. */
  function UpperRow(n: int, lines: seq<string>): (r: Outcome<seq<seq<int>>>)
    ensures r.Ok? <==> n >= 0 && ParseRows(lines).Some? && UpperRowsFit(n, ParseRows(lines).value)
    ensures r.Ok? ==> IsSquare(r.value, n)
    ensures r.Ok? ==> forall i, j :: 0 <= i < n && 0 <= j < n ==> r.value[i][j] == r.value[j][i]
    ensures r.Ok? ==> forall i :: 0 <= i < n ==> r.value[i][i] == 0
    ensures r.Ok? ==> forall i, j :: 0 <= i < j < n && i < |lines| ==>
              r.value[i][j] == Cell(ParseRows(lines).value[i], n - 1 - i, j - i - 1)
    ensures r.Ok? ==> forall i, j :: |lines| <= i < j < n ==> r.value[i][j] == 0
  {
    if n < 0 then Fail
    else
      match ParseRows(lines)
      case None => Fail
      case Some(rows) => if UpperRowsFit(n, rows) then Ok(UpperRowMatrix(n, rows)) else Fail
  }

  /** The full-matrix assignments succeed: one line per matrix row, each
      broadcastable onto a whole row. */
  predicate FullRowsFit(n: nat, rows: seq<seq<int>>) {
    |rows| <= n && forall i :: 0 <= i < |rows| ==> Fits(rows[i], n)
  }

  function FullMatrixOf(n: nat, rows: seq<seq<int>>): (m: seq<seq<int>>)
    requires FullRowsFit(n, rows)
    ensures IsSquare(m, n)
  {
    seq(n, i requires 0 <= i < n =>
      if i < |rows| then seq(n, j requires 0 <= j < n => Cell(rows[i], n, j))
      else seq(n, _ => 0))
  }

  /** The loop of `get_dist_matrix_from_full_matrix`: `dist_matrix[index, :]
      = line` for each line, over zeros. It ends in the closed form. */
  method FullMatrixLoop(n: nat, rows: seq<seq<int>>) returns (m: seq<seq<int>>)
    requires FullRowsFit(n, rows)
    ensures m == FullMatrixOf(n, rows)
  {
    m := seq(n, _ => seq(n, _ => 0));
    for index := 0 to |rows|
      invariant IsSquare(m, n)
      invariant forall i :: 0 <= i < index ==> m[i] == FullMatrixOf(n, rows)[i]
      invariant forall i :: index <= i < n ==> m[i] == seq(n, _ => 0)
    {
      var line := rows[index];
      m := m[index := seq(n, j requires 0 <= j < n => Cell(line, n, j))];
    }
  }

  /** `get_dist_matrix_from_full_matrix(lines)` for dimension `n`: row `i`
      is line `i`'s numbers (a single number broadcast along it), rows
      without a line are zero. */
  function FullMatrix(n: int, lines: seq<string>): (r: Outcome<seq<seq<int>>>)
    ensures r.Ok? <==> n >= 0 && ParseRows(lines).Some? && FullRowsFit(n, ParseRows(lines).value)
    ensures r.Ok? ==> IsSquare(r.value, n)
    ensures r.Ok? ==> forall i, j :: 0 <= i < |lines| && 0 <= j < n ==>
              r.value[i][j] == Cell(ParseRows(lines).value[i], n, j)
    ensures r.Ok? ==> forall i, j :: |lines| <= i < n && 0 <= j < n ==> r.value[i][j] == 0
  {
    if n < 0 then Fail
    else
      match ParseRows(lines)
      case None => Fail
      case Some(rows) =>
        if FullRowsFit(n, rows) then Ok(FullMatrixOf(n, rows)) else Fail
  }

  /** A FULL_MATRIX line with exactly `n` words is row `i`, word for word. */
  lemma FullMatrixRowIsLine(n: int, lines: seq<string>, i: nat)
    requires FullMatrix(n, lines).Ok? && i < |lines| && |Split(lines[i])| == n
    ensures ParseRow(lines[i]) == Some(FullMatrix(n, lines).value[i])
  {
    var rows := ParseRows(lines).value;
    var m := FullMatrix(n, lines).value;
    assert |rows[i]| == n;
    assert forall j :: 0 <= j < n ==> m[i][j] == rows[i][j];
    assert m[i] == rows[i];
  }

  // ---------------------------------------------------------------------
  // Tours

  const Int64Min: int := -0x8000_0000_0000_0000
  const Int64Max: int := 0x7fff_ffff_ffff_ffff

  /** `int(line.split()[0]) - 1`, or `None` where the source raises: an
      empty line has no first word, a word that is no integer, and a value
      outside `int64` cannot be stored in the `np.int64` array. */
  function TourNode(line: string): (v: Option<int>)
    ensures v.Some? <==> |Split(line)| > 0 && ParseInt(Split(line)[0]).Some?
                         && Int64Min <= ParseInt(Split(line)[0]).value - 1 <= Int64Max
    ensures v.Some? ==> v.value + 1 == ParseInt(Split(line)[0]).value
  {
    var ws := Split(line);
    if |ws| == 0 then None
    else
      match ParseInt(ws[0])
      case None => None
      case Some(t) => if Int64Min <= t - 1 <= Int64Max then Some(t - 1) else None
  }

  /** `get_optimal_solution(lines)` for dimension `n`: one node per line,
      zeros for positions past the last line. */
  function OptimalTour(n: int, lines: seq<string>): (r: Outcome<seq<int>>)
    ensures r.Ok? <==> n >= 0 && |lines| <= n && forall i :: 0 <= i < |lines| ==> TourNode(lines[i]).Some?
    ensures r.Ok? ==> |r.value| == n
    ensures r.Ok? ==> forall i :: 0 <= i < |lines| ==> r.value[i] == TourNode(lines[i]).value
    ensures r.Ok? ==> forall i :: |lines| <= i < n ==> r.value[i] == 0
  {
    if n < 0 || |lines| > n then Fail
    else if forall i :: 0 <= i < |lines| ==> TourNode(lines[i]).Some? then
      Ok(seq(n, i requires 0 <= i < n => if i < |lines| then TourNode(lines[i]).value else 0))
    else Fail
  }

  /** A tour line written as `<v>` reads back as node `v - 1`. */
  lemma TourNodeRoundTrip(v: int)
    requires Int64Min <= v - 1 <= Int64Max
    ensures TourNode(ShowInt(v)) == Some(v - 1)
  {
    ShowIntIsToken(v);
    SplitJoin([ShowInt(v)]);
    ParseShowInt(v);
  }

  // ---------------------------------------------------------------------
  // Dispatch

  /** Python's `lines[lo:hi]` for non-negative bounds: the bounds are
      clipped to the list, so a slice running past the end stops there and
      one starting at or past the end, or with `hi <= lo`, is empty. */
  function Slice<T>(s: seq<T>, lo: nat, hi: nat): (r: seq<T>)
    ensures lo <= hi <= |s| ==> r == s[lo..hi]
    ensures lo < |s| < hi ==> r == s[lo..]
    ensures |s| <= lo || hi <= lo ==> r == []
    ensures |r| <= if hi <= lo then 0 else hi - lo
  {
    if lo >= |s| || hi <= lo then []
    else if hi <= |s| then s[lo..hi]
    else s[lo..]
  }

  /** The UPPER_ROW branch, given where `EDGE_WEIGHT_SECTION` was found:
      the `n - 1` lines after it, up to `loc + n`, or as many of them as the
      file still has. A missing section makes `None + 1` a `TypeError`. */
  function UpperRowSection(lines: seq<string>, n: int, section: Option<nat>): (r: Outcome<seq<seq<int>>>)
    ensures r.Ok? ==> n >= 0 && section.Some? && IsSquare(r.value, n)
    ensures section.Some? && 1 <= n && section.value + n <= |lines| ==>
              r == UpperRow(n, lines[section.value + 1..section.value + n])
    ensures section.Some? && 1 <= n && section.value + 1 <= |lines| < section.value + n ==>
              r == UpperRow(n, lines[section.value + 1..])
    ensures section.Some? && 0 <= n && (n == 0 || |lines| < section.value + 1) ==>
              r == UpperRow(n, [])
  {
    if n < 0 || section.None? then Fail
    else if 1 <= n && section.value + n <= |lines| then UpperRow(n, lines[section.value + 1..section.value + n])
    else if 1 <= n && section.value + 1 <= |lines| then UpperRow(n, lines[section.value + 1..])
    else UpperRow(n, Slice(lines, section.value + 1, section.value + n))
  }

  /** The FULL_MATRIX branch: the `n` lines after the section header, up to
      `loc + n + 1`, or as many of them as the file still has. */
  function FullMatrixSection(lines: seq<string>, n: int, section: Option<nat>): (r: Outcome<seq<seq<int>>>)
    ensures r.Ok? ==> n >= 0 && section.Some? && IsSquare(r.value, n)
    ensures section.Some? && 0 <= n && section.value + n + 1 <= |lines| ==>
              r == FullMatrix(n, lines[section.value + 1..section.value + n + 1])
    ensures section.Some? && 0 <= n && section.value + 1 <= |lines| < section.value + n + 1 ==>
              r == FullMatrix(n, lines[section.value + 1..])
    ensures section.Some? && 0 <= n && |lines| < section.value + 1 ==> r == FullMatrix(n, [])
  {
    if n < 0 || section.None? then Fail
    else if section.value + n + 1 <= |lines| then FullMatrix(n, lines[section.value + 1..section.value + n + 1])
    else if section.value + 1 <= |lines| then FullMatrix(n, lines[section.value + 1..])
    else FullMatrix(n, Slice(lines, section.value + 1, section.value + n + 1))
  }

  /** The explicit matrix of an `EXPLICIT` file with a known dimension `n`:
      the `UPPER_ROW` or `FULL_MATRIX` builder on the lines after
      `EDGE_WEIGHT_SECTION`; any other format leaves `dist_matrix`
      unbound. */
  function ExplicitMatrix(lines: seq<string>, n: int): (r: Outcome<seq<seq<int>>>)
    ensures r.Ok? ==> n >= 0 && IsSquare(r.value, n)
    ensures r.Ok? ==> FirstMatch(lines, "EDGE_WEIGHT_SECTION").Some?
    ensures r.Ok? ==> EdgeWeightFormat(lines) == Some("UPPER_ROW") || EdgeWeightFormat(lines) == Some("FULL_MATRIX")
  {
    var format := EdgeWeightFormat(lines);
    if format == Some("UPPER_ROW") then UpperRowSection(lines, n, FirstMatch(lines, "EDGE_WEIGHT_SECTION"))
    else if format == Some("FULL_MATRIX") then FullMatrixSection(lines, n, FirstMatch(lines, "EDGE_WEIGHT_SECTION"))
    else Fail
  }

  /** Where the distances come from: an explicit matrix, or the node
      coordinates (Euclidean distances in floating point, outside this
      model). */
  datatype Weights = Explicit(matrix: seq<seq<int>>) | FromCoordinates

  /** The edge-weight branch of `read_tsp_file`. A bad `DIMENSION` line
      raises first; a missing one makes `loc + n` a `TypeError`. Both
      branches go on to read coordinates after a section header
      (`DISPLAY_DATA_SECTION` for an explicit file, `NODE_COORD_SECTION`
      for `EUC_2D`), so a missing header is a `TypeError` and a negative
      dimension a `ValueError` of `np.zeros`. A type that is neither leaves
      `node_coord_loc` unbound. */
  function ReadWeights(lines: seq<string>): (w: Outcome<Weights>)
    ensures w.Ok? ==> Dimension(lines).Ok? && Dimension(lines).value.Some? && Dimension(lines).value.value >= 0
    ensures w == Ok(FromCoordinates) <==>
              && Dimension(lines).Ok? && Dimension(lines).value.Some? && Dimension(lines).value.value >= 0
              && EdgeWeightType(lines) == Some("EUC_2D")
              && FirstMatch(lines, "NODE_COORD_SECTION").Some?
    ensures w.Ok? && w.value.Explicit? ==>
              && EdgeWeightType(lines) == Some("EXPLICIT")
              && FirstMatch(lines, "DISPLAY_DATA_SECTION").Some?
              && IsSquare(w.value.matrix, Dimension(lines).value.value)
  {
    match Dimension(lines)
    case Fail => Fail
    case Ok(dim) =>
      var kind := EdgeWeightType(lines);
      if dim.None? then Fail
      else if kind == Some("EXPLICIT") then
        match ExplicitMatrix(lines, dim.value)
        case Fail => Fail
        case Ok(m) => if FirstMatch(lines, "DISPLAY_DATA_SECTION").None? then Fail else Ok(Explicit(m))
      else if kind == Some("EUC_2D") then
        if dim.value < 0 || FirstMatch(lines, "NODE_COORD_SECTION").None? then Fail
        else Ok(FromCoordinates)
      else Fail
  }

  /** An explicit file with display data is read through its section
      builder: `UPPER_ROW` and `FULL_MATRIX` each through their own, any
      other format fails, and so does a file without display data. */
  lemma ReadExplicit(lines: seq<string>, n: int)
    requires Dimension(lines) == Ok(Some(n)) && EdgeWeightType(lines) == Some("EXPLICIT")
    ensures FirstMatch(lines, "DISPLAY_DATA_SECTION").None? ==> ReadWeights(lines) == Fail
    ensures FirstMatch(lines, "DISPLAY_DATA_SECTION").Some? && EdgeWeightFormat(lines) == Some("UPPER_ROW") ==>
              (ReadWeights(lines).Ok? <==> UpperRowSection(lines, n, FirstMatch(lines, "EDGE_WEIGHT_SECTION")).Ok?)
              && (ReadWeights(lines).Ok? ==> ReadWeights(lines).value == Explicit(UpperRowSection(lines, n, FirstMatch(lines, "EDGE_WEIGHT_SECTION")).value))
    ensures FirstMatch(lines, "DISPLAY_DATA_SECTION").Some? && EdgeWeightFormat(lines) == Some("FULL_MATRIX") ==>
              (ReadWeights(lines).Ok? <==> FullMatrixSection(lines, n, FirstMatch(lines, "EDGE_WEIGHT_SECTION")).Ok?)
              && (ReadWeights(lines).Ok? ==> ReadWeights(lines).value == Explicit(FullMatrixSection(lines, n, FirstMatch(lines, "EDGE_WEIGHT_SECTION")).value))
    ensures EdgeWeightFormat(lines) != Some("UPPER_ROW") && EdgeWeightFormat(lines) != Some("FULL_MATRIX") ==>
              ReadWeights(lines) == Fail
  {
  }

  /** The tour branch, given the dimension and where `TOUR_SECTION` was
      found: the `n` lines after the header, or as many of them as the file
      still has. A missing section or dimension is a `TypeError`. */
  function TourSection(lines: seq<string>, dim: Option<int>, section: Option<nat>): (r: Outcome<seq<int>>)
    ensures r.Ok? ==> dim.Some? && section.Some? && |r.value| == dim.value
    ensures dim.Some? && section.Some? && 0 <= dim.value && section.value + dim.value + 1 <= |lines| ==>
              r == OptimalTour(dim.value, lines[section.value + 1..section.value + dim.value + 1])
    ensures dim.Some? && section.Some? && 0 <= dim.value && section.value + 1 <= |lines| < section.value + dim.value + 1 ==>
              r == OptimalTour(dim.value, lines[section.value + 1..])
    ensures dim.Some? && section.Some? && 0 <= dim.value && |lines| < section.value + 1 ==>
              r == OptimalTour(dim.value, [])
  {
    if dim.None? || section.None? || dim.value < 0 then Fail
    else if section.value + dim.value + 1 <= |lines| then
      OptimalTour(dim.value, lines[section.value + 1..section.value + dim.value + 1])
    else if section.value + 1 <= |lines| then OptimalTour(dim.value, lines[section.value + 1..])
    else OptimalTour(dim.value, Slice(lines, section.value + 1, section.value + dim.value + 1))
  }

  /** `read_tsp_file` without coordinates: the weights, and the optimal
      tour only for a path ending in `tour.tsp` (`None` otherwise). */
  function ReadTsp(path: string, lines: seq<string>): (r: Outcome<(Weights, Option<seq<int>>)>)
    ensures r.Ok? ==> ReadWeights(lines) == Ok(r.value.0)
    ensures r.Ok? ==> (r.value.1.None? <==> !EndsWith(path, "tour.tsp"))
    ensures r.Ok? && r.value.1.Some? ==> TourSection(lines, Dimension(lines).value, FirstMatch(lines, "TOUR_SECTION")) == Ok(r.value.1.value)
    ensures !EndsWith(path, "tour.tsp") ==> (r.Ok? <==> ReadWeights(lines).Ok?)
    ensures EndsWith(path, "tour.tsp") ==>
              (r.Ok? <==> ReadWeights(lines).Ok?
                          && TourSection(lines, Dimension(lines).value, FirstMatch(lines, "TOUR_SECTION")).Ok?)
  {
    match ReadWeights(lines)
    case Fail => Fail
    case Ok(w) =>
      if !EndsWith(path, "tour.tsp") then Ok((w, None))
      else
        match TourSection(lines, Dimension(lines).value, FirstMatch(lines, "TOUR_SECTION"))
        case Fail => Fail
        case Ok(t) => Ok((w, Some(t)))
  }
}
