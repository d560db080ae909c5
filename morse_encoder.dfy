/**
 * The encoder (`encodeWord`, `encodeLine` and the line loop of
 * `morseEncodeFile`). The table is the one built by `loadMorseCharacters`;
 * it is passed in instead of being read from a static field. Warnings about
 * skipped characters are returned as the sequence of those characters.
 */
module MorseEncoder {
  import opened JavaStrings
  import opened SymbolTable

  // ---------------------------------------------------------------------
  // Words

  /** Codes of the upper-cased characters, each followed by one space; unknown characters add nothing. */
  function EncodeChars(table: Table, u: string): string
  {
    if u == [] then ""
    else
      var c := u[|u| - 1];
      EncodeChars(table, u[..|u| - 1]) + (if c in table then table[c] + " " else "")
  }

  /** The characters that have no code, in order: one warning each. */
  function SkippedChars(table: Table, u: string): seq<char>
  {
    if u == [] then []
    else
      var c := u[|u| - 1];
      SkippedChars(table, u[..|u| - 1]) + (if c in table then [] else [c])
  }

  /** The codes of the characters that have one, in order. */
  function Codes(table: Table, u: string): seq<string>
  {
    if u == [] then []
    else
      var c := u[|u| - 1];
      Codes(table, u[..|u| - 1]) + (if c in table then [table[c]] else [])
  }

  /** What `encodeWord` returns. */
  function EncodeWordSpec(table: Table, word: string): string
  {
    EncodeChars(table, ToUpper(word))
  }

  /** The warnings `encodeWord` prints. */
  function WordWarnings(table: Table, word: string): seq<char>
  {
    SkippedChars(table, ToUpper(word))
  }

  /** `encodeWord`: one pass over the upper-cased word with a growing result. */
  method EncodeWord(table: Table, word: string) returns (encoded: string, skipped: seq<char>)
    ensures encoded == EncodeWordSpec(table, word)
    ensures skipped == WordWarnings(table, word)
  {
    var upper := ToUpper(word);
    encoded, skipped := "", [];
    for i := 0 to |upper|
      invariant encoded == EncodeChars(table, upper[..i])
      invariant skipped == SkippedChars(table, upper[..i])
    {
      var character := upper[i];
      assert upper[..i + 1][..i] == upper[..i];
      if character !in table {
        skipped := skipped + [character];
      } else {
        encoded := encoded + table[character] + " ";
      }
    }
    assert upper[..|upper|] == upper;
  }

  /** Encoding (and warning about) a concatenation is concatenating the results. */
  lemma {:induction false} EncodeCharsConcat(table: Table, a: string, b: string)
    ensures EncodeChars(table, a + b) == EncodeChars(table, a) + EncodeChars(table, b)
    ensures SkippedChars(table, a + b) == SkippedChars(table, a) + SkippedChars(table, b)
    ensures Codes(table, a + b) == Codes(table, a) + Codes(table, b)
  {
    if b == [] {
      assert a + b == a;
    } else {
      var b' := b[..|b| - 1];
      EncodeCharsConcat(table, a, b');
      assert (a + b)[..|a + b| - 1] == a + b';
      assert (a + b)[|a + b| - 1] == b[|b| - 1];
    }
  }

  /** `encodeWord(a + b) == encodeWord(a) + encodeWord(b)`, warnings included. */
  lemma EncodeWordConcat(table: Table, a: string, b: string)
    ensures EncodeWordSpec(table, a + b) == EncodeWordSpec(table, a) + EncodeWordSpec(table, b)
    ensures WordWarnings(table, a + b) == WordWarnings(table, a) + WordWarnings(table, b)
  {
    ToUpperConcat(a, b);
    EncodeCharsConcat(table, ToUpper(a), ToUpper(b));
  }

  /** One character: its code and a space with no warning, or nothing and one warning. */
  lemma EncodeWordSingle(table: Table, c: char)
    ensures UpperChar(c) in table ==>
              EncodeWordSpec(table, [c]) == table[UpperChar(c)] + " " && WordWarnings(table, [c]) == []
    ensures UpperChar(c) !in table ==>
              EncodeWordSpec(table, [c]) == "" && WordWarnings(table, [c]) == [UpperChar(c)]
  {
    var u := ToUpper([c]);
    assert u == [UpperChar(c)];
    assert u[..0] == [];
    assert EncodeChars(table, u) == EncodeChars(table, []) + (if UpperChar(c) in table then table[UpperChar(c)] + " " else "");
    assert SkippedChars(table, u) == SkippedChars(table, []) + (if UpperChar(c) in table then [] else [UpperChar(c)]);
  }

  /** Case does not matter: lookup only ever sees upper-cased characters. */
  lemma EncodeWordCaseInvariant(table: Table, w: string)
    ensures EncodeWordSpec(table, ToUpper(w)) == EncodeWordSpec(table, w)
    ensures WordWarnings(table, ToUpper(w)) == WordWarnings(table, w)
  {
    ToUpperIdempotent(w);
  }

  /** With the empty table (definition file missing) every character is skipped. */
  lemma {:induction false} EncodeCharsEmptyTable(u: string)
    ensures EncodeChars(map[], u) == ""
    ensures SkippedChars(map[], u) == u
  {
    if u != [] {
      EncodeCharsEmptyTable(u[..|u| - 1]);
      assert u[..|u| - 1] + [u[|u| - 1]] == u;
    }
  }

  /** Every word encodes to "" and warns about each of its upper-cased characters. */
  lemma EncodeWordEmptyTable(w: string)
    ensures EncodeWordSpec(map[], w) == ""
    ensures WordWarnings(map[], w) == ToUpper(w)
  {
    EncodeCharsEmptyTable(ToUpper(w));
  }

  /**
   * Each character is either encoded or warned about: the counts add up, and
   * the warnings name exactly the characters of the word that have no code.
   */
  lemma {:induction false} EncodeCharsAccounts(table: Table, u: string)
    ensures |Codes(table, u)| + |SkippedChars(table, u)| == |u|
    ensures forall c :: c in SkippedChars(table, u) <==> c in u && c !in table
  {
    if u != [] {
      var u', last := u[..|u| - 1], u[|u| - 1];
      EncodeCharsAccounts(table, u');
      assert u == u' + [last];
      forall c ensures c in SkippedChars(table, u) <==> c in u && c !in table {
        assert c in u <==> c in u' || c == last;
      }
    }
  }

  /**
   * When no code contains a space, the encoded word cut at its spaces gives
   * back the codes of the known characters in order, and one empty piece
   * after the trailing space.
   */
  lemma {:induction false} EncodeCharsDecodes(table: Table, u: string)
    requires forall c | c in table :: ' ' !in table[c]
    ensures SplitAll(EncodeChars(table, u)) == Codes(table, u) + [""]
  {
    if u != [] {
      var u', c := u[..|u| - 1], u[|u| - 1];
      EncodeCharsDecodes(table, u');
      var e := EncodeChars(table, u');
      var codes := Codes(table, u');
      if c in table {
        var code := table[c];
        assert EncodeChars(table, u) == e + code + " ";
        assert Codes(table, u) == codes + [code];
        SplitAllExtend(e, code);
        var x := SplitAll(e);
        assert x == codes + [""];
        assert x[..|x| - 1] == codes;
        assert x[|x| - 1] + code == code;
        assert SplitAll(e + code) == codes + [code];
        SplitAllSpace(e + code, "");
        assert e + code + " " == e + code + " " + "";
        assert SplitAll("") == [""];
      } else {
        assert EncodeChars(table, u) == e;
        assert Codes(table, u) == codes;
      }
    }
  }

  /** `EncodeCharsDecodes` for a word of the input. */
  lemma EncodeWordDecodes(table: Table, w: string)
    requires forall c | c in table :: ' ' !in table[c]
    ensures SplitAll(EncodeWordSpec(table, w)) == Codes(table, ToUpper(w)) + [""]
  {
    EncodeCharsDecodes(table, ToUpper(w));
  }

  // ---------------------------------------------------------------------
  // Lines

  /** The encoded words in order, each followed by the word separator "| ". */
  function EncodeWords(table: Table, words: seq<string>): string
  {
    if words == [] then ""
    else EncodeWords(table, words[..|words| - 1]) + EncodeWordSpec(table, words[|words| - 1]) + "| "
  }

  /** The warnings for the words, in order. */
  function WordsWarnings(table: Table, words: seq<string>): seq<char>
  {
    if words == [] then []
    else WordsWarnings(table, words[..|words| - 1]) + WordWarnings(table, words[|words| - 1])
  }

  /** What `encodeLine` returns: the pieces of `line.split(" ")`, encoded. */
  function EncodeLineSpec(table: Table, line: string): string
  {
    EncodeWords(table, Split(line))
  }

  /** The warnings `encodeLine` prints. */
  function LineWarnings(table: Table, line: string): seq<char>
  {
    WordsWarnings(table, Split(line))
  }

  /** `encodeLine`: one pass over the pieces with a growing result. */
  method EncodeLine(table: Table, line: string) returns (encoded: string, warnings: seq<char>)
    ensures encoded == EncodeLineSpec(table, line)
    ensures warnings == LineWarnings(table, line)
  {
    var words := Split(line);
    encoded, warnings := "", [];
    for i := 0 to |words|
      invariant encoded == EncodeWords(table, words[..i])
      invariant warnings == WordsWarnings(table, words[..i])
    {
      var encodedWord, skipped := EncodeWord(table, words[i]);
      assert words[..i + 1][..i] == words[..i];
      encoded := encoded + encodedWord + "| ";
      warnings := warnings + skipped;
    }
    assert words[..|words|] == words;
  }

  /** Occurrences of `x` in `s`. */
  function CountChar(s: string, x: char): nat
  {
    if s == [] then 0
    else CountChar(s[..|s| - 1], x) + (if s[|s| - 1] == x then 1 else 0)
  }

  lemma {:induction false} CountCharConcat(a: string, b: string, x: char)
    ensures CountChar(a + b, x) == CountChar(a, x) + CountChar(b, x)
  {
    if b == [] {
      assert a + b == a;
    } else {
      CountCharConcat(a, b[..|b| - 1], x);
      assert (a + b)[..|a + b| - 1] == a + b[..|b| - 1];
      assert (a + b)[|a + b| - 1] == b[|b| - 1];
    }
  }

  lemma {:induction false} CountCharAbsent(s: string, x: char)
    requires x !in s
    ensures CountChar(s, x) == 0
  {
    if s != [] {
      assert forall y <- s[..|s| - 1] :: y in s;
      CountCharAbsent(s[..|s| - 1], x);
    }
  }

  /** An encoded word never contains the separator when no code does. */
  lemma {:induction false} EncodeCharsNoBar(table: Table, u: string)
    requires forall c | c in table :: '|' !in table[c]
    ensures '|' !in EncodeChars(table, u)
  {
    if u != [] {
      EncodeCharsNoBar(table, u[..|u| - 1]);
    }
  }

  /** Every word, empty or not, contributes exactly one separator. */
  lemma {:induction false} EncodeWordsMarkers(table: Table, words: seq<string>)
    requires forall c | c in table :: '|' !in table[c]
    ensures CountChar(EncodeWords(table, words), '|') == |words|
  {
    if words != [] {
      var init, last := words[..|words| - 1], words[|words| - 1];
      EncodeWordsMarkers(table, init);
      var e := EncodeWordSpec(table, last);
      EncodeCharsNoBar(table, ToUpper(last));
      CountCharAbsent(e, '|');
      CountCharConcat(EncodeWords(table, init), e, '|');
      CountCharConcat(EncodeWords(table, init) + e, "| ", '|');
      assert CountChar("| ", '|') == 1 by {
        assert "| "[..1] == "|" && "|"[..0] == "";
      }
    }
  }

  /** The line carries one separator per piece of `line.split(" ")`. */
  lemma EncodeLineMarkers(table: Table, line: string)
    requires forall c | c in table :: '|' !in table[c]
    ensures CountChar(EncodeLineSpec(table, line), '|') == |Split(line)|
  {
    EncodeWordsMarkers(table, Split(line));
  }

  /**
   * The empty line still gets one separator, and the encoded line is empty
   * exactly when the line is a non-empty run of spaces.
   */
  lemma EncodeLineEmpty(table: Table, line: string)
    ensures EncodeLineSpec(table, "") == "| "
    ensures EncodeLineSpec(table, line) == "" <==> line != "" && forall i :: 0 <= i < |line| ==> line[i] == ' '
  {
    assert Split("") == [""];
    assert EncodeWords(table, [""]) == EncodeWords(table, []) + EncodeWordSpec(table, "") + "| ";
    var words := Split(line);
    if words != [] {
      assert EncodeWords(table, words)[|EncodeWords(table, words)| - 1] == ' ';
    }
  }

  // ---------------------------------------------------------------------
  // Files

  /** A line with at least one Scanner token on it. */
  predicate HasToken(line: string)
  {
    exists k :: 0 <= k < |line| && !IsJavaWhitespace(line[k])
  }

  /** `in.hasNext()` before reading line `i`: some token is left in the input. */
  predicate HasNext(lines: seq<string>, i: nat)
  {
    exists j :: i <= j < |lines| && HasToken(lines[j])
  }

  /**
   * The lines the `while (in.hasNext())` loop reads: all of them up to the
   * last one holding a token; trailing blank or whitespace-only lines are
   * never read.
   */
  function ReadLines(lines: seq<string>): (read: seq<string>)
    ensures read <= lines
    ensures read == [] || HasToken(read[|read| - 1])
    ensures forall j :: |read| <= j < |lines| ==> !HasToken(lines[j])
  {
    if lines == [] || HasToken(lines[|lines| - 1]) then lines
    else ReadLines(lines[..|lines| - 1])
  }

  /** `in.hasNext()` holds before line `i` exactly while `i` is a line that is read. */
  lemma HasNextReads(lines: seq<string>, i: nat)
    requires i <= |lines|
    ensures HasNext(lines, i) <==> i < |ReadLines(lines)|
  {
    var read := ReadLines(lines);
    if i < |read| {
      assert lines[|read| - 1] == read[|read| - 1];
    }
  }

  /** Every element followed by `blank`. */
  function FollowEach<T>(xs: seq<T>, blank: T): seq<T>
  {
    if xs == [] then []
    else FollowEach(xs[..|xs| - 1], blank) + [xs[|xs| - 1], blank]
  }

  /** Element 2i of the result is xs[i] and element 2i + 1 is `blank`. */
  lemma {:induction false} FollowEachAt<T>(xs: seq<T>, blank: T, i: nat)
    requires i < |xs|
    ensures |FollowEach(xs, blank)| == 2 * |xs|
    ensures FollowEach(xs, blank)[2 * i] == xs[i] && FollowEach(xs, blank)[2 * i + 1] == blank
  {
    var n := |xs| - 1;
    FollowEachLength(xs[..n], blank);
    if i < n {
      FollowEachAt(xs[..n], blank, i);
    }
  }

  lemma {:induction false} FollowEachLength<T>(xs: seq<T>, blank: T)
    ensures |FollowEach(xs, blank)| == 2 * |xs|
  {
    if xs != [] {
      FollowEachLength(xs[..|xs| - 1], blank);
    }
  }

  /** The encoding of each line, in order. */
  function EncodeEach(table: Table, lines: seq<string>): seq<string>
  {
    seq(|lines|, i requires 0 <= i < |lines| => EncodeLineSpec(table, lines[i]))
  }

  function LinesWarnings(table: Table, lines: seq<string>): seq<char>
  {
    if lines == [] then []
    else LinesWarnings(table, lines[..|lines| - 1]) + LineWarnings(table, lines[|lines| - 1])
  }

  /** The lines `morseEncodeFile` hands to `Files.write`: each line read, encoded, then an empty line. */
  function EncodeFileSpec(table: Table, lines: seq<string>): seq<string>
  {
    FollowEach(EncodeEach(table, ReadLines(lines)), "")
  }

  /** The warnings printed while encoding the file. */
  function FileWarnings(table: Table, lines: seq<string>): seq<char>
  {
    LinesWarnings(table, ReadLines(lines))
  }

  /** One more line read adds its encoding, an empty line and its warnings. */
  lemma FileStep(table: Table, lines: seq<string>, i: nat)
    requires i < |lines|
    ensures FollowEach(EncodeEach(table, lines[..i + 1]), "")
         == FollowEach(EncodeEach(table, lines[..i]), "") + [EncodeLineSpec(table, lines[i]), ""]
    ensures LinesWarnings(table, lines[..i + 1]) == LinesWarnings(table, lines[..i]) + LineWarnings(table, lines[i])
  {
    assert lines[..i + 1][..i] == lines[..i];
    var xs := EncodeEach(table, lines[..i + 1]);
    assert xs[..i] == EncodeEach(table, lines[..i]);
  }

  /** The loop of `morseEncodeFile`, given the lines `nextLine()` would return. */
  method MorseEncodeFile(table: Table, lines: seq<string>) returns (output: seq<string>, warnings: seq<char>)
    ensures output == EncodeFileSpec(table, lines)
    ensures warnings == FileWarnings(table, lines)
  {
    ghost var read := ReadLines(lines);
    output, warnings := [], [];
    var i := 0;
    while HasNext(lines, i)
      invariant i <= |read|
      invariant output == FollowEach(EncodeEach(table, read[..i]), "")
      invariant warnings == LinesWarnings(table, read[..i])
      decreases |lines| - i
    {
      HasNextReads(lines, i);
      var line := lines[i];
      assert line == read[i];
      FileStep(table, read, i);
      var encodedLine, skipped := EncodeLine(table, line);
      output := output + [encodedLine, ""];
      warnings := warnings + skipped;
      i := i + 1;
    }
    HasNextReads(lines, i);
    assert read[..i] == read;
  }

  /**
   * `n` lines read give `2n` output lines: line 2i is the encoding of line i
   * and line 2i + 1 is empty; a file whose last line holds a token is read in
   * full.
   */
  lemma EncodeFileLayout(table: Table, lines: seq<string>)
    ensures var out, n := EncodeFileSpec(table, lines), |ReadLines(lines)|;
            && |out| == 2 * n
            && (forall i :: 0 <= i < n ==> out[2 * i] == EncodeLineSpec(table, lines[i]) && out[2 * i + 1] == "")
            && (lines != [] && HasToken(lines[|lines| - 1]) ==> n == |lines|)
  {
    var read := ReadLines(lines);
    var encoded := EncodeEach(table, read);
    FollowEachLength(encoded, "");
    forall i | 0 <= i < |read|
      ensures FollowEach(encoded, "")[2 * i] == EncodeLineSpec(table, lines[i])
      ensures FollowEach(encoded, "")[2 * i + 1] == ""
    {
      FollowEachAt(encoded, "", i);
      assert read[i] == lines[i];
    }
  }

  // ---------------------------------------------------------------------
  // Worked examples

  /** A two-letter table: H = "....", I = "..". */
  const HiTable: Table := map['H' := "....", 'I' := ".."]

  lemma ExampleWordHi()
    ensures EncodeWordSpec(HiTable, "HI") == ".... .. "
    ensures EncodeWordSpec(HiTable, "hi") == ".... .. "
  {
    assert ToUpper("HI") == "HI" && ToUpper("hi") == "HI";
    assert "HI"[..1] == "H" && "H"[..0] == "";
    assert EncodeChars(HiTable, "H") == ".... ";
  }

  /** "HI" encodes to its two codes and one separator. */
  lemma ExampleLineHi()
    ensures EncodeLineSpec(HiTable, "HI") == ".... .. | "
  {
    ExampleWordHi();
    assert Split("HI") == ["HI"];
    assert ["HI"][..0] == [];
  }

  /** "HI HI": one separator per word. */
  lemma ExampleLineHiHi()
    ensures EncodeLineSpec(HiTable, "HI HI") == ".... .. | .... .. | "
  {
    ExampleWordHi();
    ExampleSplitHiHi();
    assert ["HI", "HI"][..1] == ["HI"];
    assert ["HI"][..0] == [];
  }

  lemma ExampleSplitHiHi()
    ensures Split("HI HI") == ["HI", "HI"]
  {
    SplitAllNoSpace("HI");
    SplitAllSpace("HI", "HI");
    assert "HI" + " " + "HI" == "HI HI";
    assert "HI HI"[2] == ' ';
    assert DropTrailingEmpty(["HI", "HI"]) == ["HI", "HI"];
  }

  /** The file holding the single line "HI": its encoding, then a blank line. */
  lemma ExampleFileHi()
    ensures EncodeFileSpec(HiTable, ["HI"]) == [".... .. | ", ""]
  {
    ExampleLineHi();
    assert HasToken("HI") by { assert !IsJavaWhitespace("HI"[0]); }
    assert ReadLines(["HI"]) == ["HI"];
    assert ["HI"][..0] == [];
  }
}
