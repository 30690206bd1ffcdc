/**
 * The text format of the elevation tiles: one line per row of pixels, values
 * separated by commas. Parsing splits on line feeds, then on commas, trims
 * every value and drops the values that are left empty.
 */
module DemText {
  import opened Wrappers

  // ---------------------------------------------------------------- split / join

  /** `s.split(sep)` for a one-character separator: the pieces between separators. */
  function Split(s: string, sep: char): (parts: seq<string>)
    ensures |parts| >= 1
    ensures forall k :: 0 <= k < |parts| ==> sep !in parts[k]
    ensures Join(parts, sep) == s
    decreases |s|
  {
    var i := FindIndex(s, sep);
    if i < 0 then [s]
    else
      var rest := Split(s[i + 1..], sep);
      assert s == s[..i] + [sep] + s[i + 1..];
      [s[..i]] + rest
  }

  /** `parts.join(sep)`. */
  function Join(parts: seq<string>, sep: char): string
    requires |parts| >= 1
  {
    if |parts| == 1 then parts[0] else parts[0] + [sep] + Join(parts[1..], sep)
  }

  /** The first separator in `a + [sep] + b` is the one after `a` when `a` has none. */
  lemma FindFirstSeparator(a: string, sep: char, b: string)
    requires sep !in a
    ensures FindIndex(a + [sep] + b, sep) == |a|
  {
    var s := a + [sep] + b;
    assert s[|a|] == sep;
    assert s[..|a|] == a;
  }

  /** Joining pieces that hold no separator and splitting again gives the pieces back. */
  lemma {:induction false} SplitJoin(parts: seq<string>, sep: char)
    requires |parts| >= 1
    requires forall k :: 0 <= k < |parts| ==> sep !in parts[k]
    ensures Split(Join(parts, sep), sep) == parts
  {
    if |parts| == 1 {
      assert FindIndex(parts[0], sep) == -1;
    } else {
      var tail := Join(parts[1..], sep);
      assert Join(parts, sep) == parts[0] + [sep] + tail;
      SplitStep(parts[0], sep, tail);
      SplitJoin(parts[1..], sep);
      assert parts == [parts[0]] + parts[1..];
    }
  }

  /** A piece without the separator, then the separator: the split starts with that piece. */
  lemma SplitStep(a: string, sep: char, b: string)
    requires sep !in a
    ensures Split(a + [sep] + b, sep) == [a] + Split(b, sep)
  {
    var s := a + [sep] + b;
    FindFirstSeparator(a, sep, b);
    assert s[..|a|] == a;
    assert s[|a| + 1..] == b;
  }

  /** A character other than the separator occurs in the join only if it occurs in a piece. */
  lemma {:induction false} JoinAvoids(parts: seq<string>, sep: char, ch: char)
    requires |parts| >= 1 && ch != sep
    requires forall k :: 0 <= k < |parts| ==> ch !in parts[k]
    ensures ch !in Join(parts, sep)
  {
    if |parts| > 1 {
      JoinAvoids(parts[1..], sep, ch);
    }
  }

  // ---------------------------------------------------------------- trim

  /**
   * The characters `String.prototype.trim` removes: ECMAScript WhiteSpace
   * (tab, vertical tab, form feed, space, no-break space, byte order mark and
   * the other space separators) and LineTerminator (line feed, carriage
   * return, line and paragraph separators).
   */
  predicate IsSpace(ch: char) {
    ch in SPACES || '\U{2000}' <= ch <= '\U{200A}'
  }

  const SPACES: set<char> := {
    '\t', '\U{000B}', '\U{000C}', ' ', '\U{00A0}', '\U{FEFF}', '\U{1680}',
    '\U{202F}', '\U{205F}', '\U{3000}', '\n', '\r', '\U{2028}', '\U{2029}' }

  /** Drops leading white space: what is left is a suffix, the dropped part is all space. */
  function TrimStart(s: string): (t: string)
    ensures |t| <= |s| && t == s[|s| - |t|..]
    ensures forall k :: 0 <= k < |s| - |t| ==> IsSpace(s[k])
    ensures t == [] || !IsSpace(t[0])
  {
    if s != [] && IsSpace(s[0]) then TrimStart(s[1..]) else s
  }

  /** Drops trailing white space: what is left is a prefix, the dropped part is all space. */
  function TrimEnd(s: string): (t: string)
    ensures |t| <= |s| && t == s[..|t|]
    ensures forall k :: |t| <= k < |s| ==> IsSpace(s[k])
    ensures t == [] || !IsSpace(t[|t| - 1])
  {
    if s != [] && IsSpace(s[|s| - 1]) then TrimEnd(s[..|s| - 1]) else s
  }

  /** A value without white space at either end. */
  predicate Trimmed(t: string) {
    t == [] || (!IsSpace(t[0]) && !IsSpace(t[|t| - 1]))
  }

  /** s is t with only white space before it (i characters) and only white space after it. */
  predicate SpaceAround(s: string, i: int, t: string) {
    && 0 <= i <= |s| - |t| && t == s[i..i + |t|]
    && (forall k :: 0 <= k < i ==> IsSpace(s[k]))
    && (forall k :: i + |t| <= k < |s| ==> IsSpace(s[k]))
  }

  /**
   * `String.prototype.trim`: no longer than s, and no white space left at
   * either end. TrimAround says what was cut.
   */
  function Trim(s: string): (t: string)
    ensures |t| <= |s| && Trimmed(t)
  {
    var a := TrimStart(s);
    var t := TrimEnd(a);
    assert t == [] || t[0] == a[0];
    t
  }

  /** Trim cuts only white space, from the two ends of s: what is left is a slice of s. */
  lemma TrimAround(s: string)
    ensures SpaceAround(s, |s| - |TrimStart(s)|, Trim(s))
  {
    var a := TrimStart(s);
    SuffixPrefixAround(s, a, TrimEnd(a));
  }

  /** A prefix t of a suffix a of s, with white space cut on both sides, is a slice of s with white space around it. */
  lemma SuffixPrefixAround(s: string, a: string, t: string)
    requires |a| <= |s| && a == s[|s| - |a|..] && forall k :: 0 <= k < |s| - |a| ==> IsSpace(s[k])
    requires |t| <= |a| && t == a[..|t|] && forall k :: |t| <= k < |a| ==> IsSpace(a[k])
    ensures SpaceAround(s, |s| - |a|, t)
  {
    var i := |s| - |a|;
    assert s[i..i + |t|] == s[i..][..|t|];
    forall k | i + |t| <= k < |s|
      ensures IsSpace(s[k])
    {
      assert s[k] == a[k - i];
    }
  }

  /** Trim adds no character. */
  lemma TrimChars(s: string)
    ensures forall ch :: ch in Trim(s) ==> ch in s
  {
    var t, i := Trim(s), |s| - |TrimStart(s)|;
    TrimAround(s);
    forall ch | ch in t
      ensures ch in s
    {
      var k :| 0 <= k < |t| && t[k] == ch;
      assert s[i + k] == ch;
    }
  }

  /** A value with no white space at its ends is left as it is. */
  lemma TrimOfTrimmed(s: string)
    requires Trimmed(s)
    ensures Trim(s) == s
  {
    if s != [] {
      assert TrimStart(s) == s;
    }
  }

  /** Trim removes exactly the white space at both ends and adds nothing. */
  lemma TrimProperties(s: string)
    ensures Trimmed(Trim(s))
    ensures forall ch :: ch in Trim(s) ==> ch in s
    ensures Trimmed(s) ==> Trim(s) == s
  {
    TrimChars(s);
    if Trimmed(s) {
      TrimOfTrimmed(s);
    }
  }

  // ---------------------------------------------------------------- parse

  /** A value the parser can produce: non-empty, trimmed, free of separators. */
  predicate CleanToken(t: string) {
    t != [] && Trimmed(t) && ',' !in t && '\n' !in t
  }

  /** `.map(x => x.trim()).filter(x => x !== '')` over the pieces of one line. */
  function Tokens(parts: seq<string>): (row: seq<string>)
    requires forall k :: 0 <= k < |parts| ==> ',' !in parts[k] && '\n' !in parts[k]
    ensures |row| <= |parts|
    ensures forall k :: 0 <= k < |row| ==> CleanToken(row[k])
  {
    if parts == [] then []
    else
      var t := Trim(parts[0]);
      TrimToken(parts[0]);
      var rest := Tokens(parts[1..]);
      if t == "" then rest else CleanCons(t, rest); [t] + rest
  }

  /** The pieces of a line: no comma and no line feed in any of them. */
  predicate Pieces(parts: seq<string>) {
    forall k :: 0 <= k < |parts| ==> ',' !in parts[k] && '\n' !in parts[k]
  }

  /** One piece gives its trimmed value, or nothing when trimming leaves it empty. */
  lemma TokensSingle(p: string)
    requires ',' !in p && '\n' !in p
    ensures Tokens([p]) == if Trim(p) == "" then [] else [Trim(p)]
  {
    assert [p][1..] == [];
  }

  /** The values of two runs of pieces are the values of the first, then those of the second. */
  lemma {:induction false} TokensAppend(a: seq<string>, b: seq<string>)
    requires Pieces(a) && Pieces(b)
    ensures Pieces(a + b)
    ensures Tokens(a + b) == Tokens(a) + Tokens(b)
  {
    PiecesAppend(a, b);
    if a == [] {
      assert a + b == b;
    } else {
      var p, a' := a[0], a[1..];
      assert a == [p] + a' && a + b == [p] + (a' + b);
      PiecesAppend(a', b);
      TokensCons(p, a');
      TokensCons(p, a' + b);
      TokensAppend(a', b);
      var head := if Trim(p) == "" then [] else [Trim(p)];
      AppendAssoc(head, Tokens(a'), Tokens(b));
    }
  }

  lemma AppendAssoc(x: seq<string>, y: seq<string>, z: seq<string>)
    ensures x + (y + z) == (x + y) + z
  {
  }

  /** The values of p followed by more pieces: p's value, if any, then theirs. */
  lemma TokensCons(p: string, rest: seq<string>)
    requires ',' !in p && '\n' !in p && Pieces(rest)
    ensures Pieces([p] + rest)
    ensures Tokens([p] + rest) == (if Trim(p) == "" then [] else [Trim(p)]) + Tokens(rest)
  {
    var c := [p] + rest;
    assert Pieces([p]);
    PiecesAppend([p], rest);
    assert c[0] == p && c[1..] == rest;
  }

  lemma PiecesAppend(a: seq<string>, b: seq<string>)
    requires Pieces(a) && Pieces(b)
    ensures Pieces(a + b)
  {
    forall k | 0 <= k < |a + b|
      ensures ',' !in (a + b)[k] && '\n' !in (a + b)[k]
    {
      if k >= |a| {
        assert (a + b)[k] == b[k - |a|];
      }
    }
  }

  lemma CleanCons(t: string, rest: seq<string>)
    requires CleanToken(t)
    requires forall k :: 0 <= k < |rest| ==> CleanToken(rest[k])
    ensures forall k :: 0 <= k < |[t] + rest| ==> CleanToken(([t] + rest)[k])
  {
    forall k | 0 <= k < |[t] + rest|
      ensures CleanToken(([t] + rest)[k])
    {
      if k > 0 {
        assert ([t] + rest)[k] == rest[k - 1];
      }
    }
  }

  /** Trimming a piece of a line gives a clean token unless it leaves nothing. */
  lemma TrimToken(p: string)
    requires ',' !in p && '\n' !in p
    ensures Trim(p) != "" ==> CleanToken(Trim(p))
  {
    TrimChars(p);
  }

  /**
   * One line: `line.split(',')`, every value trimmed, the empty ones dropped.
   * Every value left is clean, and there are no more of them than pieces.
   */
  function ParseLine(line: string): (row: seq<string>)
    requires '\n' !in line
    ensures |row| <= |Split(line, ',')|
    ensures forall k :: 0 <= k < |row| ==> CleanToken(row[k])
  {
    var parts := Split(line, ',');
    forall k | 0 <= k < |parts|
      ensures '\n' !in parts[k]
    {
      SplitPieceChars(line, ',', k);
    }
    Tokens(parts)
  }

  /** The pieces of a split hold only characters of the input. */
  lemma SplitPieceChars(s: string, sep: char, k: nat)
    requires k < |Split(s, sep)|
    ensures forall ch :: ch in Split(s, sep)[k] ==> ch in s
    decreases |s|
  {
    var i := FindIndex(s, sep);
    if i >= 0 && k > 0 {
      SplitPieceChars(s[i + 1..], sep, k - 1);
    }
  }

  /**
   * The body of a tile: `text.split('\n')` and then every line through
   * ParseLine. Every line becomes a row, possibly empty, and every value is a
   * clean token.
   */
  function ParseDem(text: string): (grid: seq<seq<string>>)
    ensures |grid| >= 1 && |grid| == |Split(text, '\n')|
    ensures forall r :: 0 <= r < |grid| ==> grid[r] == ParseLine(Split(text, '\n')[r])
    ensures forall r, c :: 0 <= r < |grid| && 0 <= c < |grid[r]| ==> CleanToken(grid[r][c])
  {
    var lines := Split(text, '\n');
    seq(|lines|, r requires 0 <= r < |lines| => ParseLine(lines[r]))
  }

  // ---------------------------------------------------------------- render

  /** The text a grid of values is written as: commas within a row, a line feed between rows. */
  function RenderRow(row: seq<string>): string {
    if row == [] then "" else Join(row, ',')
  }

  function Render(grid: seq<seq<string>>): string
    requires |grid| >= 1
  {
    Join(seq(|grid|, r requires 0 <= r < |grid| => RenderRow(grid[r])), '\n')
  }

  /** Parsing a rendered line gives back its values. */
  lemma ParseRenderRow(row: seq<string>)
    requires forall c :: 0 <= c < |row| ==> CleanToken(row[c])
    ensures '\n' !in RenderRow(row)
    ensures ParseLine(RenderRow(row)) == row
  {
    if row == [] {
      assert Split("", ',') == [""];
      assert Trim("") == "";
    } else {
      JoinAvoids(row, ',', '\n');
      SplitJoin(row, ',');
      TokensOfClean(row);
    }
  }

  lemma {:induction false} TokensOfClean(row: seq<string>)
    requires forall c :: 0 <= c < |row| ==> CleanToken(row[c]) && ',' !in row[c] && '\n' !in row[c]
    ensures Tokens(row) == row
  {
    if row != [] {
      TrimProperties(row[0]);
      TokensOfClean(row[1..]);
      assert row == [row[0]] + row[1..];
    }
  }

  /** Writing out a grid of clean values and parsing the text gives back the grid. */
  lemma ParseRender(grid: seq<seq<string>>)
    requires |grid| >= 1
    requires forall r, c :: 0 <= r < |grid| && 0 <= c < |grid[r]| ==> CleanToken(grid[r][c])
    ensures ParseDem(Render(grid)) == grid
  {
    var lines := seq(|grid|, r requires 0 <= r < |grid| => RenderRow(grid[r]));
    forall r | 0 <= r < |grid|
      ensures '\n' !in lines[r] && ParseLine(lines[r]) == grid[r]
    {
      ParseRenderRow(grid[r]);
    }
    SplitJoin(lines, '\n');
  }
}
