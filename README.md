# Morse encoder — verified Dafny model

A model of the Morse encoding core of `MorseEncoder` (a small Java program
that turns a text file into Morse code using a character-to-code table read
from a definition file), with proofs of what that core guarantees.

The model has four files:

- `wrappers.dfy`: `Option` (a file that may be missing) and `Result` (an
  operation that may end in an uncaught exception).
- `java_strings.dfy` (module `JavaStrings`): the Java library behaviour the
  encoder depends on. It covers `toUpperCase` on ASCII letters,
  `Character.isWhitespace` (the Scanner's token delimiter) and `split(" ")`.
  `split` is modelled in two stages. `SplitAll` collects every piece between
  spaces. Then a string with no space comes back whole (so `""` gives
  `[""]`), and otherwise the trailing empty pieces are dropped. So
  `split("")` is `[""]` and `split(" ")` is `[]`.
- `symbol_table.dfy` (module `SymbolTable`): building the table. The
  definition file's tokens are read in pairs and `character[0] -> code` is
  put into a map, so the last definition of a character wins.
  `LoadMorseCharacters` is the `while` loop over the tokens, proved against
  the specification function `BuildTable`.
- `morse_encoder.dfy` (module `MorseEncoder`): `encodeWord`, `encodeLine`
  and the line loop of `morseEncodeFile`. Each is a method with a loop,
  proved equal to a specification function (`EncodeWordSpec`,
  `EncodeLineSpec`, `EncodeFileSpec`). The properties are lemmas about those
  functions.

Modelling decisions:

- The table lives in a static field that is written once, before any
  encoding. The model passes it to the encoding methods as a parameter.
- The warning `Warning: skipping: <c>` is not printed. Each method returns
  the sequence of skipped (upper-cased) characters instead, in order.
- The definition file is an `Option<seq<string>>` of Scanner tokens. `None`
  stands for a missing file, which leaves the table empty.
- The input file is the sequence of lines that `nextLine()` would return.
- The driver loop is guarded by `in.hasNext()`, which looks for a *token*
  and not a line. So lines are read only up to the last line holding a
  token, and trailing blank lines produce no output. `ReadLines` models this
  for files whose lines end in line feed, carriage return, or U+2028/U+2029
  (see "Left out" for NEL). A description of the program as "every input line
  gives two output lines" holds only for files whose last line holds a
  token. The model follows the code.
- An odd number of definition tokens makes the second `in.next()` throw
  `NoSuchElementException`. Nothing catches it, so the program stops. The
  model returns `Err(NoSuchElement)`. (Describing the program as "no
  exception escapes" does not match the code on this input.)

## Model

| member | source | states |
|---|---|---|
| `JavaStrings.UpperChar` | src/christieck/MorseEncoder.java:93 | `toUpperCase` on one character: exactly the ASCII letters `a`-`z` change, each to the capital 32 code points below, and no result is a lower-case ASCII letter |
| `JavaStrings.ToUpper` | src/christieck/MorseEncoder.java:93 | `toUpperCase` on a word: same length, each character upper-cased as by `UpperChar` |
| `JavaStrings.ToUpperIdempotent` | src/christieck/MorseEncoder.java:93 | upper-casing an already upper-cased word changes nothing |
| `JavaStrings.IsJavaWhitespace` | src/christieck/MorseEncoder.java:121 | `Character.isWhitespace`, the Scanner's token delimiter: space, tab, line feed and carriage return are whitespace; letters and digits are not; NEL (U+0085) and the no-break spaces U+00A0, U+2007, U+202F are not |
| `JavaStrings.DropTrailingEmpty` | src/christieck/MorseEncoder.java:73 | the result is a prefix of the pieces, only empty pieces were removed, and its last piece (if any) is non-empty |
| `JavaStrings.SplitAllJoin` | src/christieck/MorseEncoder.java:73 | joining all the pieces with single spaces gives back the line (split's inverse) |
| `JavaStrings.SplitAllConcat` | src/christieck/MorseEncoder.java:73 | splitting `a + b` fuses the last piece of `a` with the first piece of `b` and keeps all the others |
| `JavaStrings.Split` | src/christieck/MorseEncoder.java:73 | `split(" ")` gives space-free pieces. Joined with single spaces they give the line minus its trailing spaces. The last piece is non-empty when the line has a space. The result is empty exactly when the line is a non-empty run of spaces (so `""` gives one empty piece). Together these fix the result uniquely |
| `SymbolTable.PairsAt` | src/christieck/MorseEncoder.java:121-126 | definition j is made of tokens 2j and 2j+1. Its key is the first character of token 2j (`charAt(0)`), and the rest of that token is ignored |
| `SymbolTable.PairsStep` | src/christieck/MorseEncoder.java:123-126 | reading one more pair of tokens appends exactly one definition |
| `SymbolTable.LoadMorseCharacters` | src/christieck/MorseEncoder.java:115-134 | a missing file gives the empty table. An odd token count gives the `NoSuchElement` error. Otherwise the loop's table equals `BuildTable` of the pairs in file order |
| `SymbolTable.BuildTableLastWins` | src/christieck/MorseEncoder.java:121-127 | a character is a key exactly when some definition starts with it, and its code is the code of the last such definition |
| `SymbolTable.BuildTableReordered` | src/christieck/MorseEncoder.java:121-127 | when no character gets two different codes, any reordering of the definitions (a permutation in particular) builds the same table |
| `SymbolTable.DuplicateDefinitionKeepsLast` | src/christieck/MorseEncoder.java:126 | defining `A` as `.-` and then as `-` leaves `A -> -` |
| `SymbolTable.LoadedCodesAreTokens` | src/christieck/MorseEncoder.java:123-126 | every code in a table read from the file is a Scanner token: non-empty and free of whitespace |
| `MorseEncoder.EncodeWord` | src/christieck/MorseEncoder.java:89-107 | the accumulator loop returns `EncodeWordSpec` of the word and the warnings `WordWarnings` |
| `MorseEncoder.EncodeCharsConcat` | src/christieck/MorseEncoder.java:91-106 | encoding, warnings and recognised codes of `a + b` are those of `a` followed by those of `b` |
| `MorseEncoder.EncodeWordConcat` | src/christieck/MorseEncoder.java:91-106 | `encodeWord(a + b) == encodeWord(a) + encodeWord(b)`, and the warnings concatenate too |
| `MorseEncoder.EncodeWordSingle` | src/christieck/MorseEncoder.java:95-103 | a known character gives its code plus a space and no warning. An unknown one gives `""` and exactly one warning naming the upper-cased character |
| `MorseEncoder.EncodeWordCaseInvariant` | src/christieck/MorseEncoder.java:93 | a word and its upper-cased form give the same encoding and the same warnings |
| `MorseEncoder.EncodeCharsEmptyTable` | src/christieck/MorseEncoder.java:95-99 | with the empty table, upper-cased characters encode to `""` and every one of them is warned about |
| `MorseEncoder.EncodeWordEmptyTable` | src/christieck/MorseEncoder.java:93-99 | with the empty table (missing definition file) every word encodes to `""` and all its upper-cased characters are warned about, in order |
| `MorseEncoder.EncodeCharsAccounts` | src/christieck/MorseEncoder.java:97-103 | every character is either encoded or warned about: the two counts add up to the word's length, and a character is warned about exactly when it occurs in the word and has no code |
| `MorseEncoder.EncodeCharsDecodes` | src/christieck/MorseEncoder.java:95-103 | when no code contains a space, cutting the encoded word at spaces gives the recognised codes in order, plus one empty piece after the trailing space |
| `MorseEncoder.EncodeWordDecodes` | src/christieck/MorseEncoder.java:93-104 | the same decoding round trip for a word of the input, after upper-casing |
| `MorseEncoder.EncodeLine` | src/christieck/MorseEncoder.java:70-81 | the accumulator loop returns `EncodeLineSpec`: each piece of `split(" ")`, in order, encoded and followed by the word separator (a bar and a space). The warnings are those of the pieces in order |
| `MorseEncoder.EncodeWordsMarkers` | src/christieck/MorseEncoder.java:75-78 | when no code contains a bar character, a list of n words, empty ones included, gives exactly n bar characters |
| `MorseEncoder.EncodeLineMarkers` | src/christieck/MorseEncoder.java:73-78 | when no code contains a bar character, the encoded line holds one bar per piece of `split(" ")`, empty pieces included |
| `MorseEncoder.EncodeLineEmpty` | src/christieck/MorseEncoder.java:73-77 | `encodeLine("")` is a lone word separator (bar, space). A line encodes to `""` exactly when it is a non-empty run of spaces |
| `MorseEncoder.ReadLines` | src/christieck/MorseEncoder.java:45-47 | the lines read are a prefix of the file. The last line read holds a token, and no later line does |
| `MorseEncoder.HasNextReads` | src/christieck/MorseEncoder.java:45 | `hasNext()` holds before line i exactly when i is one of the lines that are read |
| `MorseEncoder.MorseEncodeFile` | src/christieck/MorseEncoder.java:43-52 | the loop's output list and warnings equal `EncodeFileSpec` and `FileWarnings` |
| `MorseEncoder.FollowEachAt` | src/christieck/MorseEncoder.java:50-51 | after every element comes one blank: element 2i of the result is element i, element 2i+1 is the blank, and the length doubles |
| `MorseEncoder.FileStep` | src/christieck/MorseEncoder.java:47-51 | reading one more line appends its encoding, then an empty line, then its warnings |
| `MorseEncoder.EncodeFileLayout` | src/christieck/MorseEncoder.java:43-52 | n lines read give 2n output lines, in input order. Line 2i is the encoding of line i and line 2i+1 is empty. A file whose last line holds a token is read in full |
| `MorseEncoder.ExampleWordHi` | src/christieck/MorseEncoder.java:93-102 | with H = `....` and I = `..`, both `HI` and `hi` encode to `.... .. ` |
| `MorseEncoder.ExampleLineHi` | src/christieck/MorseEncoder.java:72-80 | the line `HI` encodes to the codes of H and I, each followed by a space, then the word separator |
| `MorseEncoder.ExampleSplitHiHi` | src/christieck/MorseEncoder.java:73 | `"HI HI".split(" ")` is `["HI", "HI"]` |
| `MorseEncoder.ExampleLineHiHi` | src/christieck/MorseEncoder.java:72-80 | the line `HI HI` encodes to that word encoding and separator twice |
| `MorseEncoder.ExampleFileHi` | src/christieck/MorseEncoder.java:45-51 | a file holding `HI` gives the encoded line of `HI` and then an empty line |

## Left out

- ReadLines: the model decides `hasNext()` from the characters
  of the lines alone and assumes no line ends in NEL (U+0085). `nextLine()`
  ends a line at NEL, but NEL is not whitespace, so the Scanner counts a NEL
  terminator as a token. For a file `HI` NEL NEL, Java reads the two lines
  `HI` and `""` and writes four output lines; the model reads only `HI`.
- HasNextReads: rests on the same assumption as `ReadLines`, that no line
  ends in NEL (U+0085).

- Reading files: the definition file and the input file (`Scanner`,
  `new File`), and writing the output with `Files.write`. The model takes
  the tokens and the lines as they would be read, and returns the list of
  output lines.
- Splitting the definition file into tokens and the input file into lines.
  The model takes the Scanner's tokens and the `nextLine()` results as given.
- The handlers that print an error when the input file is missing or the
  output cannot be written. They print a message and do nothing else.
- Console prompts (`getInput`), the constructor wiring and `main`.
- The printing of warnings and error messages. Warnings are returned as
  sequences of characters.
- `toUpperCase` beyond ASCII. It is locale-dependent and can change a
  string's length (`ß` becomes `SS`). Only `a`–`z` are mapped.
- `IsJavaWhitespace` uses today's Unicode classes. In Unicode 6.2, as used by
  Java 8, U+180E was also whitespace; the model does not treat it as such.
- Java `char` is a UTF-16 code unit, while Dafny `char` is a Unicode scalar
  value. Surrogate pairs are not modelled.
- The internals of `LookupTable`, whose source is not part of this model. It
  is treated as a map with the usual `put`/`get`.
- `split` with a general regular expression. Only the literal single-space
  separator used here is modelled.
