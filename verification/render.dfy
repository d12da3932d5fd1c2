/** Turning a layout into text: the words of each line joined by single
    spaces, each line padded on the right to the page width and ended by a
    newline. */
module Render {
  import opened Layouts

  function Lengths(words: seq<string>): (r: seq<nat>)
    ensures |r| == |words|
  {
    if |words| == 0 then [] else [|words[0]|] + Lengths(words[1..])
  }

  /** The characters `str.split()` splits on: those for which `str.isspace()`
      holds, that is tab to carriage return, the four information separators
      `\x1c`-`\x1f`, the space, next line, no-break space, and the Unicode
      space separators, line separator and paragraph separator. */
  predicate IsSpace(ch: char) {
    ('\U{9}' <= ch <= '\U{D}') || ('\U{1C}' <= ch <= '\U{20}')
    || ch == '\U{85}' || ch == '\U{A0}' || ch == '\U{1680}'
    || ('\U{2000}' <= ch <= '\U{200A}') || ch == '\U{2028}' || ch == '\U{2029}'
    || ch == '\U{202F}' || ch == '\U{205F}' || ch == '\U{3000}'
  }

  /** The longest prefix of `s` without whitespace. */
  function Token(s: string): (t: string)
    ensures |t| <= |s| && t == s[..|t|]
    ensures forall k :: 0 <= k < |t| ==> !IsSpace(t[k])
    ensures |t| < |s| ==> IsSpace(s[|t|])
  {
    if |s| == 0 || IsSpace(s[0]) then "" else [s[0]] + Token(s[1..])
  }

  /** `str.split()` without arguments: the maximal runs of non-whitespace
      characters, so no word is empty. */
  function Words(s: string): (r: seq<string>)
    ensures forall k :: 0 <= k < |r| ==> |r[k]| > 0
    ensures forall k, m :: 0 <= k < |r| && 0 <= m < |r[k]| ==> !IsSpace(r[k][m])
    decreases |s|
  {
    if |s| == 0 then []
    else if IsSpace(s[0]) then Words(s[1..])
    else
      var t := Token(s);
      [t] + Words(s[|t|..])
  }

  /** `" ".join(words)`. */
  function Join(words: seq<string>): string {
    if |words| == 0 then ""
    else if |words| == 1 then words[0]
    else words[0] + " " + Join(words[1..])
  }

  /** `" " * x`, which is empty for a negative `x`. */
  function Spaces(x: int): (s: string)
    ensures |s| == if x < 0 then 0 else x
    ensures forall c :: 0 <= c < |s| ==> s[c] == ' '
    decreases x
  {
    if x <= 0 then "" else " " + Spaces(x - 1)
  }

  /** One output row of `conversion`: the line, its padding, a newline. */
  function Row(line: string, L: int): string {
    line + Spaces(L - |line|) + "\n"
  }

  /** `conversion`: the rows of all lines, in order. */
  function Conversion(liste: seq<string>, L: int): string {
    if |liste| == 0 then "" else Row(liste[0], L) + Conversion(liste[1..], L)
  }

  /** The text of each line of layout `p` over `words`. */
  function LineTexts(words: seq<string>, p: Layout): seq<string> {
    if |p| == 0 then []
    else
      var n := if |p[0]| <= |words| then |p[0]| else |words|;
      [Join(words[..n])] + LineTexts(words[n..], p[1..])
  }

  // ---------------------------------------------------------------------
  // Reading rendered text back

  /** Cuts `text` into consecutive pieces of `size` characters (the last may
      be shorter). */
  function Chunks(text: string, size: nat): seq<string>
    requires size > 0
    decreases |text|
  {
    if |text| == 0 then []
    else if |text| <= size then [text]
    else [text[..size]] + Chunks(text[size..], size)
  }

  function TrimRight(s: string): string {
    if |s| > 0 && s[|s| - 1] == ' ' then TrimRight(s[..|s| - 1]) else s
  }

  /** A row without its newline and its trailing padding. */
  function Unpad(row: string): string {
    if |row| == 0 then "" else TrimRight(row[..|row| - 1])
  }

  /** Reads the lines back from text laid out on a page of width `L`. */
  function Unconversion(text: string, L: nat): seq<string> {
    var rows := Chunks(text, L + 1);
    seq(|rows|, k requires 0 <= k < |rows| => Unpad(rows[k]))
  }

  // ---------------------------------------------------------------------
  // Properties

  lemma {:induction false} JoinWidth(words: seq<string>)
    requires |words| > 0
    ensures |Join(words)| == Width(Lengths(words))
  {
    assert Lengths(words) == [|words[0]|] + Lengths(words[1..]);
    if |words| > 1 {
      JoinWidth(words[1..]);
      WidthCons(|words[0]|, Lengths(words[1..]));
    } else {
      assert Sum(Lengths(words)) == |words[0]| + Sum([]);
    }
  }

  lemma {:induction false} LengthsSlice(words: seq<string>, n: nat)
    requires n <= |words|
    ensures Lengths(words[..n]) == Lengths(words)[..n]
    ensures Lengths(words[n..]) == Lengths(words)[n..]
  {
    if n > 0 {
      assert words[..n][1..] == words[1..][..n - 1];
      assert words[n..] == words[1..][n - 1..];
      LengthsSlice(words[1..], n - 1);
    }
  }

  /** The text of a line is exactly as long as the line's content length,
      which is what `evaluation` measures with `len`. */
  lemma {:induction false} LineTextWidths(words: seq<string>, p: Layout)
    requires IsPartition(p, Lengths(words))
    ensures |LineTexts(words, p)| == |p|
    ensures forall k :: 0 <= k < |p| ==> |LineTexts(words, p)[k]| == Width(p[k])
  {
    if |p| > 0 {
      var n := |p[0]|;
      PartitionTail(p, Lengths(words));
      LengthsSlice(words, n);
      JoinWidth(words[..n]);
      LineTextWidths(words[n..], p[1..]);
    }
  }

  lemma {:induction false} LengthsAt(words: seq<string>)
    ensures forall k :: 0 <= k < |words| ==> Lengths(words)[k] == |words[k]|
  {
    if |words| > 0 {
      LengthsAt(words[1..]);
    }
  }

  /** The token at the start of a word followed by whitespace or by nothing
      is the word. */
  lemma {:induction false} TokenOfWord(a: string, b: string)
    requires forall m :: 0 <= m < |a| ==> !IsSpace(a[m])
    requires |b| == 0 || IsSpace(b[0])
    ensures Token(a + b) == a
  {
    if |a| > 0 {
      assert (a + b)[1..] == a[1..] + b;
      TokenOfWord(a[1..], b);
    } else {
      assert a + b == b;
    }
  }

  /** Splitting words joined by single spaces gives the words back, when none
      is empty or holds whitespace. */
  lemma {:induction false} WordsJoin(words: seq<string>)
    requires forall k :: 0 <= k < |words| ==> |words[k]| > 0
    requires forall k, m :: 0 <= k < |words| && 0 <= m < |words[k]| ==> !IsSpace(words[k][m])
    ensures Words(Join(words)) == words
  {
    if |words| == 1 {
      TokenOfWord(words[0], "");
      assert words[0] + "" == words[0];
      assert Join(words)[|words[0]|..] == "";
    } else if |words| > 1 {
      var a := words[0];
      var rest := Join(words[1..]);
      var text := a + (" " + rest);
      assert Join(words) == text;
      TokenOfWord(a, " " + rest);
      assert text[|a|..] == " " + rest;
      assert (" " + rest)[1..] == rest;
      WordsJoin(words[1..]);
      assert words == [a] + words[1..];
    }
  }

  lemma TrimPadding(line: string, x: int)
    requires |line| == 0 || line[|line| - 1] != ' '
    ensures TrimRight(line + Spaces(x)) == line
    decreases if x < 0 then 0 else x
  {
    if x > 0 {
      assert Spaces(x) == Spaces(x - 1) + " " by {
        SpacesSnoc(x);
      }
      assert (line + Spaces(x))[..|line + Spaces(x)| - 1] == line + Spaces(x - 1);
      TrimPadding(line, x - 1);
    } else {
      assert line + Spaces(x) == line;
    }
  }

  lemma {:induction false} SpacesSnoc(x: int)
    requires x > 0
    ensures Spaces(x) == Spaces(x - 1) + " "
    decreases x
  {
    if x > 1 {
      SpacesSnoc(x - 1);
    }
  }

  /** A line no wider than the page renders as exactly `L` columns and a
      newline, whatever its last character. */
  lemma PaddedRow(line: string, L: int)
    requires |line| <= L
    ensures |Row(line, L)| == L + 1
    ensures Row(line, L)[..|line|] == line
    ensures forall c :: |line| <= c < L ==> Row(line, L)[c] == ' '
    ensures Row(line, L)[L] == '\n'
  {
  }

  /** Reading a row back gives the line again when the line does not end in
      a space (a trailing space cannot be told apart from the padding). */
  lemma UnpadRow(line: string, L: int)
    requires |line| <= L
    requires |line| == 0 || line[|line| - 1] != ' '
    ensures Unpad(Row(line, L)) == line
  {
    var r := Row(line, L);
    assert r[..|r| - 1] == line + Spaces(L - |line|);
    TrimPadding(line, L - |line|);
  }

  /** The rows of `conversion`, one per line. */
  function Rows(liste: seq<string>, L: int): (r: seq<string>)
    ensures |r| == |liste|
  {
    if |liste| == 0 then [] else [Row(liste[0], L)] + Rows(liste[1..], L)
  }

  lemma {:induction false} RowsAt(liste: seq<string>, L: int)
    ensures forall k :: 0 <= k < |liste| ==> Rows(liste, L)[k] == Row(liste[k], L)
  {
    if |liste| > 0 {
      RowsAt(liste[1..], L);
    }
  }

  lemma {:induction false} ConversionChunks(liste: seq<string>, L: nat)
    requires forall k :: 0 <= k < |liste| ==> |liste[k]| <= L
    ensures |Conversion(liste, L)| == |liste| * (L + 1)
    ensures Chunks(Conversion(liste, L), L + 1) == Rows(liste, L)
  {
    if |liste| > 0 {
      var row := Row(liste[0], L);
      assert |row| == L + 1;
      ConversionChunks(liste[1..], L);
      var rest := Conversion(liste[1..], L);
      var text := row + rest;
      assert Conversion(liste, L) == text;
      if |rest| == 0 {
        assert text == row;
        assert Rows(liste[1..], L) == [];
      } else {
        assert text[..L + 1] == row;
        assert text[L + 1..] == rest;
      }
      assert |liste| * (L + 1) == (L + 1) + (|liste| - 1) * (L + 1);
    }
  }

  /** Rendering then reading back gives the lines again, and every rendered
      row is exactly `L` columns wide before its newline. */
  lemma ConversionRoundTrip(liste: seq<string>, L: nat)
    requires forall k :: 0 <= k < |liste| ==> |liste[k]| <= L
    requires forall k :: 0 <= k < |liste| ==> |liste[k]| == 0 || liste[k][|liste[k]| - 1] != ' '
    ensures |Conversion(liste, L)| == |liste| * (L + 1)
    ensures Chunks(Conversion(liste, L), L + 1) == seq(|liste|, k requires 0 <= k < |liste| => Row(liste[k], L))
    ensures Unconversion(Conversion(liste, L), L) == liste
  {
    ConversionChunks(liste, L);
    RowsAt(liste, L);
    var rows := Rows(liste, L);
    assert rows == seq(|liste|, k requires 0 <= k < |liste| => Row(liste[k], L));
    forall k | 0 <= k < |liste|
      ensures Unpad(rows[k]) == liste[k]
    {
      UnpadRow(liste[k], L);
    }
  }
}
